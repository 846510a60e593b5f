/** Two local managers ask for the same job at the same time: both have its configuration
    before either is inserted. */
module Race {
  import opened Records
  import opened Tables
  import opened Registration
  import opened Handling

  const FIRST := Handler("a", "host-a", "Mordor", LocalManager, "", Start)
  const SECOND := Handler("b", "host-b", "Mordor", LocalManager, "", Start)
  const BEFORE := State(Db(map["Mordor" := 1], {(1, 7)}, [], map[]), map[], [])

  /** Both have come as far as this, and no manager is inserted yet. */
  ghost predicate BothAt(s: State, p: Phase, q: Phase) {
    && s.db == BEFORE.db && s.log == []
    && s.handlers == map[0 := FIRST.(phase := p), 1 := SECOND.(phase := q)]
  }

  ghost predicate IsRunTo(run: seq<State>, s: State) {
    IsRun(run) && run[|run| - 1] == s
  }

  lemma RunExtends(run: seq<State>, a: Action) returns (more: seq<State>)
    requires IsRun(run) && Enabled(run[|run| - 1], a)
    ensures IsRunTo(more, Next(run[|run| - 1], a))
  {
    more := Extended(run, a);
  }

  lemma BothArrive() returns (run: seq<State>)
    ensures IsRun(run) && BothAt(run[|run| - 1], Start, Start)
  {
    run := RunExtends([BEFORE], Arrive(0, FIRST));
    run := RunExtends(run, Arrive(1, SECOND));
  }

  lemma BothPick() returns (run: seq<State>)
    ensures IsRun(run) && BothAt(run[|run| - 1], Picked(7), Picked(7))
  {
    run := BothArrive();
    assert Unserved(BEFORE.db, "Mordor", 7);
    run := RunExtends(run, PickJob(0, 7));
    run := RunExtends(run, PickJob(1, 7));
  }

  lemma BothLoad() returns (run: seq<State>)
    ensures IsRun(run) && BothAt(run[|run| - 1], Configured(7), Configured(7))
  {
    run := BothPick();
    run := RunExtends(run, LoadConfig(0, true));
    run := RunExtends(run, LoadConfig(1, true));
  }

  /** The first one is inserted. The second one is answered with the same configuration and
      is told to retry; no row is inserted for it, though the database refuses nothing. */
  lemma SecondIsConfiguredInVain() returns (run: seq<State>)
    ensures IsRun(run)
    ensures var s := run[|run| - 1];
            && s.db.managers == [Manager("a", "host-a", 1, 7)]
            && s.log == [Inserted(0, 1, 7)]
            && At(s, 0, Answered(Reply(None, Some(7), false)))
            && At(s, 1, Answered(Reply(None, Some(7), true)))
            && !MayInsert(s.db, "Mordor", 7)
  {
    run := BothLoad();
    run := RunExtends(run, InsertLM(0, false));
    run := RunExtends(run, InsertLM(1, false));
    var s := run[|run| - 1];
    assert Manager("a", "host-a", 1, 7) in s.db.managers;
  }
}
