/** The request handler as the sequence of statements that one thread executes. Undisturbed,
    each of its runs is a path of the registration protocol. */
module Handling {
  import opened Records
  import opened Tables
  import opened Registration

  ghost predicate IsPath(path: seq<State>) {
    path != [] && forall k :: 0 <= k < |path| - 1 ==> StepAt(path, k)
  }

  /** The path leads from `s` to the handler's answer, over the tables as they are now. */
  ghost predicate Answers(path: seq<State>, s: State, h: nat, db: Db, reply: Reply) {
    && IsPath(path) && path[0] == s
    && At(path[|path| - 1], h, Answered(reply))
    && path[|path| - 1].db == db
  }

  ghost function Extended(path: seq<State>, a: Action): (r: seq<State>)
    requires IsPath(path) && Enabled(path[|path| - 1], a)
    ensures IsPath(r) && r[0] == path[0] && r[|r| - 1] == Next(path[|path| - 1], a)
  {
    var r := path + [Next(path[|path| - 1], a)];
    PathExtends(path, a);
    r
  }

  lemma PathExtends(path: seq<State>, a: Action)
    requires IsPath(path) && Enabled(path[|path| - 1], a)
    ensures IsPath(path + [Next(path[|path| - 1], a)])
  {
    var r := path + [Next(path[|path| - 1], a)];
    forall k | 0 <= k < |r| - 1 ensures StepAt(r, k) {
      if k < |path| - 1 {
        assert StepAt(path, k);
      }
    }
  }

  /** The path leads from `s` to a state in which the handler is in this phase. */
  ghost predicate Reaches(path: seq<State>, s: State, h: nat, me: Handler, phase: Phase, db: Db) {
    && IsPath(path) && path[0] == s
    && h in path[|path| - 1].handlers && path[|path| - 1].handlers[h] == me.(phase := phase)
    && path[|path| - 1].db == db
  }

  /** What fails, and what the manager asked says. */
  datatype World = World(welcome: bool, noFind: bool, noForget: bool, noStore: bool, noLoad: bool, noInsert: bool)

  method StoreWorker(m: GMDatabaseManager, me: Handler, broken: bool, ghost s: State, ghost h: nat, ghost path: seq<State>)
    returns (reply: Reply, ghost path': seq<State>)
    requires Reaches(path, s, h, me, Storing, m.db)
    modifies m
    ensures Answers(path', s, h, m.db, reply) && reply == Reply(None, None, true)
    ensures IsStoredUnless(broken, old(m.db), m.db, me)
  {
    var ok := m.AddWorkerToDatabase(me.guid, me.hap, me.agentType, me.subtypes, me.location, broken);
    path' := Extended(path, Store(h, ok));
    reply := Reply(None, None, true);
  }

  ghost predicate IsStoredUnless(broken: bool, db: Db, after: Db, me: Handler) {
    if broken then after == db
    else IsStoredAs(db, after, me.guid, me.hap, me.agentType, me.subtypes, me.location)
  }

  method ForgetWorker(m: GMDatabaseManager, me: Handler, broken: bool, ghost s: State, ghost h: nat, ghost path: seq<State>)
    returns (ghost path': seq<State>)
    requires Reaches(path, s, h, me, Unwelcome, m.db)
    modifies m
    ensures Reaches(path', s, h, me, Storing, m.db)
    ensures m.db == if broken then old(m.db) else old(m.db).(workers := old(m.db).workers - {me.guid})
  {
    var ok := m.RemoveWorkerFromDatabase(me.guid, broken);
    path' := Extended(path, Forget(h, ok));
  }

  method FindManager(m: GMDatabaseManager, me: Handler, broken: bool, ghost s: State, ghost h: nat)
    returns (lm: Option<Manager>, ghost path: seq<State>)
    requires At(s, h, Start) && s.handlers[h] == me && s.db == m.db && IsWorker(me.agentType)
    ensures Reaches(path, s, h, me, if lm.Some? then Asking(lm.value) else Storing, m.db)
    ensures lm.Some? <==> !broken && |JoinRows(m.db, me.guid)| == 1
    ensures lm.Some? ==> JoinRows(m.db, me.guid) == [lm.value]
  {
    lm := m.GetLMServiceDescriptorForWorker(me.guid, broken);
    path := Extended([s], FindLM(h, !broken));
  }

  lemma Asked(path: seq<State>, s: State, h: nat, me: Handler, lm: Manager, db: Db, welcome: bool) returns (path': seq<State>)
    requires Reaches(path, s, h, me, Asking(lm), db)
    ensures Reaches(path', s, h, me, if welcome then Answered(Reply(Some(lm), None, false)) else Unwelcome, db)
  {
    path' := Extended(path, AskLM(h, welcome));
  }

  /** A worker is answered with the one manager that the join gives, if that welcomes it;
      otherwise it is stored without a job and told to come back later. */
  method HandleWorker(m: GMDatabaseManager, me: Handler, w: World, ghost s: State, ghost h: nat)
    returns (reply: Reply, ghost path: seq<State>)
    requires At(s, h, Start) && s.handlers[h] == me && s.db == m.db && IsWorker(me.agentType)
    modifies m
    ensures Answers(path, s, h, m.db, reply)
    ensures var rows := JoinRows(old(m.db), me.guid);
            var asked := !w.noFind && |rows| == 1;
            if asked && w.welcome then reply == Reply(Some(rows[0]), None, false) && m.db == old(m.db)
            else
              && reply == Reply(None, None, true)
              && (var before := if asked && !w.noForget then old(m.db).(workers := old(m.db).workers - {me.guid}) else old(m.db);
                  IsStoredUnless(w.noStore, before, m.db, me))
  {
    var lm;
    lm, path := FindManager(m, me, w.noFind, s, h);
    if lm.Some? {
      path := Asked(path, s, h, me, lm.value, m.db, w.welcome);
      if w.welcome {
        return Reply(lm, None, false), path;
      }
      path := ForgetWorker(m, me, w.noForget, s, h, path);
    }
    reply, path := StoreWorker(m, me, w.noStore, s, h, path);
  }

  method StoreIdleManager(m: GMDatabaseManager, me: Handler, broken: bool, ghost s: State, ghost h: nat, ghost path: seq<State>)
    returns (reply: Reply, ghost path': seq<State>)
    requires Reaches(path, s, h, me, NoJob, m.db)
    modifies m
    ensures Answers(path', s, h, m.db, reply) && reply == Reply(None, None, true)
    ensures IsStoredUnless(broken, old(m.db), m.db, me)
  {
    var ok := m.AddWorkerToDatabase(me.guid, me.hap, me.agentType, me.subtypes, me.location, broken);
    path' := Extended(path, StoreIdle(h, ok));
    reply := Reply(None, None, true);
  }

  method RegisterManager(m: GMDatabaseManager, me: Handler, job: Job, broken: bool, ghost s: State, ghost h: nat, ghost path: seq<State>)
    returns (reply: Reply, ghost path': seq<State>)
    requires Reaches(path, s, h, me, Configured(job), m.db) && MayInsert(m.db, me.location, job)
    modifies m
    ensures Answers(path', s, h, m.db, reply) && reply == Reply(None, Some(job), broken)
    ensures m.db == if broken then old(m.db)
                    else old(m.db).(managers := old(m.db).managers
                                                + [Manager(me.guid, me.hap, old(m.db).locations[me.location], job)])
  {
    // the configuration is in the response already
    var ok := m.SetLMForLocationAndFuzzJob(me.location, me.guid, me.hap, job, broken);
    path' := Extended(path, InsertLM(h, broken));
    reply := Reply(None, Some(job), !ok);
  }

  method PickAJob(m: GMDatabaseManager, me: Handler, broken: bool, ghost s: State, ghost h: nat)
    returns (fuzzjob: Option<Job>, ghost path: seq<State>)
    requires At(s, h, Start) && s.handlers[h] == me && s.db == m.db && me.agentType.LocalManager?
    ensures Reaches(path, s, h, me, if fuzzjob.Some? then Picked(fuzzjob.value) else NoJob, m.db)
    ensures fuzzjob.Some? ==> Unserved(m.db, me.location, fuzzjob.value)
    ensures fuzzjob.None? <==> broken || forall j :: !Unserved(m.db, me.location, j)
  {
    fuzzjob := m.GetFuzzJobWithoutLM(me.location, broken);
    if fuzzjob.None? {
      NoneFound(s.db, me.location, broken);
      path := Extended([s], PickNone(h, !broken));
    } else {
      path := Extended([s], PickJob(h, fuzzjob.value));
    }
  }

  lemma Loaded(path: seq<State>, s: State, h: nat, me: Handler, job: Job, db: Db, ok: bool) returns (path': seq<State>)
    requires Reaches(path, s, h, me, Picked(job), db)
    ensures Reaches(path', s, h, me, if ok then Configured(job) else Answered(Reply(None, None, true)), db)
  {
    path' := Extended(path, LoadConfig(h, ok));
  }

  /** A local manager gets the configuration of an unserved job of its location, and its row,
      if there is such a job and nothing fails. */
  method HandleLocalManager(m: GMDatabaseManager, me: Handler, w: World, ghost s: State, ghost h: nat)
    returns (reply: Reply, ghost path: seq<State>)
    requires At(s, h, Start) && s.handlers[h] == me && s.db == m.db && me.agentType.LocalManager?
    modifies m
    ensures Answers(path, s, h, m.db, reply)
    ensures var before := old(m.db);
            if w.noFind || (forall j :: !Unserved(before, me.location, j)) then
              reply == Reply(None, None, true) && IsStoredUnless(w.noStore, before, m.db, me)
            else if w.noLoad then reply == Reply(None, None, true) && m.db == before
            else
              && reply.config.Some? && Unserved(before, me.location, reply.config.value)
              && reply.lm.None? && reply.retryLater == w.noInsert
              && m.db == if w.noInsert then before
                         else before.(managers := before.managers
                                + [Manager(me.guid, me.hap, before.locations[me.location], reply.config.value)])
  {
    var fuzzjob;
    fuzzjob, path := PickAJob(m, me, w.noFind, s, h);
    if fuzzjob.None? {
      reply, path := StoreIdleManager(m, me, w.noStore, s, h, path);
      return;
    }
    path := Loaded(path, s, h, me, fuzzjob.value, m.db, !w.noLoad);
    if w.noLoad {
      return Reply(None, None, true), path;
    }
    reply, path := RegisterManager(m, me, fuzzjob.value, w.noInsert, s, h, path);
  }

  lemma NoneFound(db: Db, name: string, broken: bool)
    requires broken || forall j :: !Unserved(db, name, j)
    ensures !broken ==> NoneUnserved(db, name)
  {
    if !broken && name in db.locations {
      forall row | row in db.fuzzjobs && row.0 == db.locations[name] ensures Serves(db.managers, row.0, row.1) {
        assert !Unserved(db, name, row.1);
        assert (row.0, row.1) == row;
      }
    }
  }

  /** `handleFLUFFIMessage`: what one handler does to the tables and answers is what the
      protocol's steps do, taken one after the other. */
  method HandleFluffiMessage(m: GMDatabaseManager, me: Handler, w: World, ghost s: State, ghost h: nat)
    returns (reply: Reply, ghost path: seq<State>)
    requires At(s, h, Start) && s.handlers[h] == me && s.db == m.db
    modifies m
    ensures Answers(path, s, h, m.db, reply)
    ensures me.agentType.GlobalManager? ==> reply == Reply(None, None, true) && m.db == old(m.db)
  {
    if IsWorker(me.agentType) {
      reply, path := HandleWorker(m, me, w, s, h);
    } else if me.agentType.LocalManager? {
      reply, path := HandleLocalManager(m, me, w, s, h);
    } else {
      path := Extended([s], Reject(h));
      reply := Reply(None, None, true);
    }
  }
}
