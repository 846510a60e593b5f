/** The registration of workers and local managers at the global manager: any number of
    handlers interleave their database statements with each other, with the monitor that
    deletes managers which no longer respond, and with the user. */
module Registration {
  import opened Records
  import opened Tables

  /** An answer: the local manager to work for, the configuration to serve, or "later". */
  datatype Reply = Reply(lm: Option<Manager>, config: Option<Job>, retryLater: bool)

  /** How far a handler has come: what it has learned and has not yet acted on. */
  datatype Phase =
    | Start
    | NoJob                       // a local manager that is not needed
    | Picked(job: Job)            // a job without a manager has been found
    | Configured(job: Job)        // and its configuration loaded
    | Asking(lm: Manager)         // the manager of a worker has been found
    | Unwelcome                   // and has turned the worker down
    | Storing                     // the worker is to be stored without a job
    | Answered(reply: Reply)

  datatype Handler = Handler(guid: Guid, hap: string, location: string, agentType: AgentType, subtypes: string, phase: Phase)

  /** What happened to the table of local managers. */
  datatype Event =
    | Inserted(h: nat, loc: LocId, job: Job)
    | Removed(loc: LocId, job: Job)

  datatype State = State(db: Db, handlers: map<nat, Handler>, log: seq<Event>)

  /** `ok` tells whether the database, or the other agent, did as asked. An insertion that is
      not `refused` for some other reason fails exactly if the constraint forbids it. */
  datatype Action =
    | Arrive(h: nat, handler: Handler)
    | PickJob(h: nat, job: Job)
    | PickNone(h: nat, ok: bool)
    | StoreIdle(h: nat, ok: bool)
    | LoadConfig(h: nat, ok: bool)
    | InsertLM(h: nat, refused: bool)
    | FindLM(h: nat, ok: bool)
    | AskLM(h: nat, ok: bool)
    | Forget(h: nat, ok: bool)
    | Store(h: nat, ok: bool)
    | Reject(h: nat)
    | RemoveManagedLM(guid: Guid)
    | DropWorkers(guids: set<Guid>)
    | AssignWorker(guid: Guid, choice: Option<Job>)
    | AssignJobs(jobs: set<(LocId, Job)>)
    | AddLocation(name: string, id: LocId)

  predicate IsWorker(t: AgentType) {
    t.TestcaseGenerator? || t.TestcaseRunner? || t.TestcaseEvaluator?
  }

  predicate At(s: State, h: nat, phase: Phase) {
    h in s.handlers && s.handlers[h].phase == phase
  }

  predicate Enabled(s: State, a: Action) {
    match a
    case Arrive(h, handler) => h !in s.handlers && handler.phase.Start?
    case PickJob(h, job) => At(s, h, Start) && s.handlers[h].agentType.LocalManager? && Unserved(s.db, s.handlers[h].location, job)
    case PickNone(h, ok) => At(s, h, Start) && s.handlers[h].agentType.LocalManager?
                            && (ok ==> NoneUnserved(s.db, s.handlers[h].location))
    case StoreIdle(h, _) => At(s, h, NoJob)
    case LoadConfig(h, _) => h in s.handlers && s.handlers[h].phase.Picked?
    case InsertLM(h, _) => h in s.handlers && s.handlers[h].phase.Configured?
    case FindLM(h, _) => At(s, h, Start) && IsWorker(s.handlers[h].agentType)
    case AskLM(h, _) => h in s.handlers && s.handlers[h].phase.Asking?
    case Forget(h, _) => At(s, h, Unwelcome)
    case Store(h, _) => At(s, h, Storing)
    case Reject(h) => At(s, h, Start) && s.handlers[h].agentType.GlobalManager?
    case RemoveManagedLM(_) => true
    case DropWorkers(_) => true
    case AssignWorker(guid, _) => guid in s.db.workers
    case AssignJobs(_) => true
    case AddLocation(name, _) => name !in s.db.locations
  }

  predicate NoneUnserved(db: Db, name: string) {
    name in db.locations ==> forall row :: row in db.fuzzjobs && row.0 == db.locations[name] ==> Serves(db.managers, row.0, row.1)
  }

  function To(s: State, h: nat, phase: Phase): State
    requires h in s.handlers
  {
    s.(handlers := s.handlers[h := s.handlers[h].(phase := phase)])
  }

  const LATER := Answered(Reply(None, None, true))

  function Next(s: State, a: Action): State
    requires Enabled(s, a)
  {
    match a
    case Arrive(h, handler) => s.(handlers := s.handlers[h := handler])
    case PickJob(h, job) => To(s, h, Picked(job))
    case PickNone(h, _) => To(s, h, NoJob)
    case StoreIdle(h, ok) => To(if ok then Stored(s, h) else s, h, LATER)
    case LoadConfig(h, ok) => To(s, h, if ok then Configured(s.handlers[h].phase.job) else LATER)
    case InsertLM(h, refused) =>
      var me := s.handlers[h];
      var job := me.phase.job;
      var ok := !refused && MayInsert(s.db, me.location, job);
      // the configuration is in the answer already when the insertion fails
      if ok then
        To(s, h, Answered(Reply(None, Some(job), false)))
          .(db := InsertManager(s.db, me.guid, me.hap, me.location, job),
            log := s.log + [Inserted(h, s.db.locations[me.location], job)])
      else To(s, h, Answered(Reply(None, Some(job), true)))
    case FindLM(h, ok) =>
      var rows := JoinRows(s.db, s.handlers[h].guid);
      To(s, h, if ok && |rows| == 1 then Asking(rows[0]) else Storing)
    case AskLM(h, ok) => To(s, h, if ok then Answered(Reply(Some(s.handlers[h].phase.lm), None, false)) else Unwelcome)
    case Forget(h, ok) =>
      To(if ok then s.(db := s.db.(workers := s.db.workers - {s.handlers[h].guid})) else s, h, Storing)
    case Store(h, ok) => To(if ok then Stored(s, h) else s, h, LATER)
    case Reject(h) => To(s, h, LATER)
    case RemoveManagedLM(guid) =>
      s.(db := s.db.(managers := Others(s.db.managers, guid)), log := s.log + Removals(s.db.managers, guid))
    case DropWorkers(guids) => s.(db := s.db.(workers := s.db.workers - guids))
    case AssignWorker(guid, job) => s.(db := s.db.(workers := s.db.workers[guid := s.db.workers[guid].(job := job)]))
    case AssignJobs(jobs) => s.(db := s.db.(fuzzjobs := jobs))
    case AddLocation(name, id) => s.(db := s.db.(locations := s.db.locations[name := id]))
  }

  /** The step inserts a row. */
  predicate Inserts(s: State, a: Action)
    requires Enabled(s, a)
  {
    a.InsertLM? && !a.refused && MayInsert(s.db, s.handlers[a.h].location, s.handlers[a.h].phase.job)
  }

  function Stored(s: State, h: nat): State
    requires h in s.handlers
  {
    var me := s.handlers[h];
    s.(db := AddWorker(s.db, me.guid, me.hap, me.agentType, me.subtypes, me.location))
  }

  /** The rows that a DELETE by GUID takes away. */
  function Removals(ms: seq<Manager>, guid: Guid): (r: seq<Event>)
    ensures forall e :: e in r <==> exists m :: m in ms && m.guid == guid && e == Removed(m.loc, m.job)
  {
    if ms == [] then [] else
    var n := |ms| - 1;
    var m := ms[n];
    assert forall x :: x in ms <==> x in ms[..n] || x == m;
    Removals(ms[..n], guid) + if m.guid == guid then [Removed(m.loc, m.job)] else []
  }

  ghost predicate Init(s: State) {
    s.db.managers == [] && s.handlers == map[] && s.log == []
  }

  ghost predicate Steps(s: State, s': State) {
    exists a :: Enabled(s, a) && s' == Next(s, a)
  }

  ghost predicate IsRun(run: seq<State>) {
    && run != []
    && Init(run[0])
    && (forall k :: 0 <= k < |run| - 1 ==> StepAt(run, k))
  }

  ghost predicate StepAt(run: seq<State>, k: nat)
    requires k < |run| - 1
  {
    Steps(run[k], run[k + 1])
  }

  // ---- the table and its history ----

  predicate Concerns(e: Event, loc: LocId, job: Job) {
    e.loc == loc && e.job == job
  }

  /** The last event for this location and job is an insertion. */
  predicate LastIsInsert(log: seq<Event>, loc: LocId, job: Job) {
    if log == [] then false else
    var e := log[|log| - 1];
    if Concerns(e, loc, job) then e.Inserted? else LastIsInsert(log[..|log| - 1], loc, job)
  }

  ghost predicate RemovedBetween(log: seq<Event>, a: int, b: int, loc: LocId, job: Job) {
    exists c :: a < c < b && 0 <= c < |log| && log[c] == Removed(loc, job)
  }

  /** Between two insertions for the same location and job there is a removal. */
  ghost predicate Alternates(log: seq<Event>) {
    forall a, b :: 0 <= a < b < |log| && log[a].Inserted? && log[b].Inserted? && Concerns(log[a], log[b].loc, log[b].job) ==>
      RemovedBetween(log, a, b, log[b].loc, log[b].job)
  }

  /** The handler has answered with a configuration and without asking to retry. */
  ghost predicate Won(s: State, h: nat, loc: LocId, job: Job) {
    && h in s.handlers
    && s.handlers[h].location in s.db.locations && s.db.locations[s.handlers[h].location] == loc
    && s.handlers[h].phase == Answered(Reply(None, Some(job), false))
  }

  ghost predicate TableInv(s: State) {
    && OnePerJob(s.db.managers)
    && (forall loc, job :: Serves(s.db.managers, loc, job) <==> LastIsInsert(s.log, loc, job))
    && Alternates(s.log)
  }

  /** The insertions in the log are those of the handlers that have won, one each. */
  ghost predicate WinnersInv(s: State) {
    && (forall h, loc, job :: Inserted(h, loc, job) in s.log <==> Won(s, h, loc, job))
    && (forall a, b :: 0 <= a < b < |s.log| && s.log[a].Inserted? && s.log[b].Inserted? ==> s.log[a].h != s.log[b].h)
    && (forall h :: h in s.handlers && s.handlers[h].phase.Answered? && s.handlers[h].phase.reply.config.Some?
                    && !s.handlers[h].phase.reply.retryLater ==>
          s.handlers[h].location in s.db.locations && s.handlers[h].phase.reply.lm == None)
  }

  ghost predicate Inv(s: State) {
    TableInv(s) && WinnersInv(s)
  }

  lemma {:induction false} LastAfterRemovals(log: seq<Event>, rs: seq<Event>, loc: LocId, job: Job)
    requires forall e :: e in rs ==> e.Removed?
    ensures LastIsInsert(log + rs, loc, job) <==> LastIsInsert(log, loc, job) && Removed(loc, job) !in rs
    decreases |rs|
  {
    if rs == [] {
      assert log + rs == log;
    } else {
      var n := |rs| - 1;
      assert (log + rs)[..|log + rs| - 1] == log + rs[..n];
      assert rs[n] in rs && forall e :: e in rs <==> e in rs[..n] || e == rs[n];
      LastAfterRemovals(log, rs[..n], loc, job);
    }
  }

  /** If the last event for a pair is not its insertion, every insertion was followed by a
      removal. */
  lemma {:induction false} RemovedSince(log: seq<Event>, a: nat, loc: LocId, job: Job)
    requires a < |log| && log[a].Inserted? && Concerns(log[a], loc, job)
    requires !LastIsInsert(log, loc, job)
    ensures RemovedBetween(log, a, |log|, loc, job)
    decreases |log|
  {
    var n := |log| - 1;
    if Concerns(log[n], loc, job) {
      assert log[n] == Removed(loc, job);
    } else {
      RemovedSince(log[..n], a, loc, job);
      var c :| a < c < n && log[..n][c] == Removed(loc, job);
      assert log[c] == Removed(loc, job);
    }
  }

  lemma AlternatesExtended(log: seq<Event>, more: seq<Event>)
    requires Alternates(log)
    requires forall e :: e in more ==> e.Removed?
    ensures Alternates(log + more)
  {
    var all := log + more;
    assert forall k :: |log| <= k < |all| ==> all[k] in more;
    forall a, b | 0 <= a < b < |all| && all[a].Inserted? && all[b].Inserted? && Concerns(all[a], all[b].loc, all[b].job)
      ensures RemovedBetween(all, a, b, all[b].loc, all[b].job)
    {
      assert all[a] == log[a] && all[b] == log[b];
      var c :| a < c < b && log[c] == Removed(log[b].loc, log[b].job);
      assert all[c] == log[c];
    }
  }

  lemma AlternatesInserted(log: seq<Event>, e: Event)
    requires Alternates(log) && e.Inserted? && !LastIsInsert(log, e.loc, e.job)
    ensures Alternates(log + [e])
  {
    var all := log + [e];
    forall a, b | 0 <= a < b < |all| && all[a].Inserted? && all[b].Inserted? && Concerns(all[a], all[b].loc, all[b].job)
      ensures RemovedBetween(all, a, b, all[b].loc, all[b].job)
    {
      assert all[a] == log[a];
      if b < |log| {
        var c :| a < c < b && log[c] == Removed(log[b].loc, log[b].job);
        assert all[c] == log[c];
      } else {
        RemovedSince(log, a, e.loc, e.job);
        var c :| a < c < |log| && log[c] == Removed(e.loc, e.job);
        assert all[c] == log[c];
      }
    }
  }

  lemma InsertKeepsTable(s: State, h: nat)
    requires TableInv(s) && Enabled(s, InsertLM(h, false)) && Inserts(s, InsertLM(h, false))
    ensures TableInv(Next(s, InsertLM(h, false)))
  {
    var me, loc, job := s.handlers[h], s.db.locations[s.handlers[h].location], s.handlers[h].phase.job;
    AppendManager(s.db.managers, Manager(me.guid, me.hap, loc, job));
    AlternatesInserted(s.log, Inserted(h, loc, job));
    LastAfterInsert(s.log, Inserted(h, loc, job));
  }

  lemma LastAfterInsert(log: seq<Event>, e: Event)
    requires e.Inserted?
    ensures forall loc, job :: LastIsInsert(log + [e], loc, job) <==> LastIsInsert(log, loc, job) || Concerns(e, loc, job)
  {
    assert (log + [e])[..|log|] == log;
  }

  lemma RemoveKeepsTable(s: State, guid: Guid)
    requires TableInv(s)
    ensures TableInv(Next(s, RemoveManagedLM(guid)))
  {
    var s' := Next(s, RemoveManagedLM(guid));
    var ms, rs := s.db.managers, Removals(s.db.managers, guid);
    OthersOnePerJob(ms, guid);
    AlternatesExtended(s.log, rs);
    forall loc, job ensures Serves(s'.db.managers, loc, job) <==> LastIsInsert(s'.log, loc, job) {
      LastAfterRemovals(s.log, rs, loc, job);
      RemovalsOfPair(ms, guid, loc, job);
    }
  }

  lemma OneRow(ms: seq<Manager>, m: Manager)
    requires OnePerJob(ms) && m in ms
    ensures forall x :: x in ms && x.loc == m.loc && x.job == m.job ==> x == m
  {
    forall x | x in ms && x.loc == m.loc && x.job == m.job ensures x == m {
      var i :| 0 <= i < |ms| && ms[i] == m;
      var j :| 0 <= j < |ms| && ms[j] == x;
      assert i == j;
    }
  }

  /** A pair is served after the removal exactly if it was before and its row stays. */
  lemma RemovalsOfPair(ms: seq<Manager>, guid: Guid, loc: LocId, job: Job)
    requires OnePerJob(ms)
    ensures Serves(Others(ms, guid), loc, job) <==> Serves(ms, loc, job) && Removed(loc, job) !in Removals(ms, guid)
  {
    if Serves(ms, loc, job) {
      var m :| m in ms && m.loc == loc && m.job == job;
      OneRow(ms, m);
      assert m in Others(ms, guid) <==> m.guid != guid;
      assert Removed(loc, job) in Removals(ms, guid) <==> m.guid == guid;
    }
  }

  lemma TableKept(s: State, a: Action)
    requires Inv(s) && Enabled(s, a)
    ensures TableInv(Next(s, a))
  {
    match a {
      case InsertLM(h, _) =>
        if Inserts(s, a) {
          InsertKeepsTable(s, h);
        }
      case RemoveManagedLM(guid) => RemoveKeepsTable(s, guid);
      case _ =>
    }
  }

  lemma WinnersKept(s: State, a: Action)
    requires Inv(s) && Enabled(s, a)
    ensures WinnersInv(Next(s, a))
  {
    var s' := Next(s, a);
    if Inserts(s, a) {
      InsertKeepsWinners(s, a.h);
    } else if a.RemoveManagedLM? {
      RemoveKeepsWinners(s, a.guid);
    } else if IsEnvironment(a) {
      EnvironmentKeepsWinners(s, a);
    } else {
      OneHandlerMoves(s, a);
      SameLogKeepsWinners(s, s', a.h);
    }
  }

  /** The user's and the monitor's steps that leave the managers alone. */
  predicate IsEnvironment(a: Action) {
    a.DropWorkers? || a.AssignWorker? || a.AssignJobs? || a.AddLocation?
  }

  lemma EnvironmentKeepsWinners(s: State, a: Action)
    requires WinnersInv(s) && Enabled(s, a) && IsEnvironment(a)
    ensures WinnersInv(Next(s, a))
  {
    var s' := Next(s, a);
    forall g, loc, job ensures Won(s', g, loc, job) <==> Won(s, g, loc, job) {
      if Won(s', g, loc, job) {
        assert IsWin(s.handlers[g].phase);
      }
    }
  }

  lemma RemoveKeepsWinners(s: State, guid: Guid)
    requires WinnersInv(s)
    ensures WinnersInv(Next(s, RemoveManagedLM(guid)))
  {
    var s', rs := Next(s, RemoveManagedLM(guid)), Removals(s.db.managers, guid);
    assert forall k :: |s.log| <= k < |s'.log| ==> s'.log[k] in rs;
    forall h, loc, job
      ensures Inserted(h, loc, job) in s'.log <==> Inserted(h, loc, job) in s.log
      ensures Won(s', h, loc, job) <==> Won(s, h, loc, job)
    {
    }
  }

  lemma OneHandlerMoves(s: State, a: Action)
    requires Enabled(s, a) && !IsEnvironment(a) && !a.RemoveManagedLM? && !Inserts(s, a)
    ensures var s' := Next(s, a);
            && s'.log == s.log && s'.db.locations == s.db.locations
            && a.h in s'.handlers && s'.handlers == s.handlers[a.h := s'.handlers[a.h]]
            && (a.h in s.handlers ==> !IsWin(s.handlers[a.h].phase))
            && !IsWin(s'.handlers[a.h].phase)
  {
  }

  predicate IsWin(p: Phase) {
    p.Answered? && p.reply.config.Some? && !p.reply.retryLater
  }

  /** A step of one handler that does not insert. */
  lemma SameLogKeepsWinners(s: State, s': State, h: nat)
    requires Inv(s) && s'.log == s.log && s'.db.locations == s.db.locations
    requires h in s'.handlers && s'.handlers == s.handlers[h := s'.handlers[h]]
    requires h in s.handlers ==> !IsWin(s.handlers[h].phase)
    requires !IsWin(s'.handlers[h].phase)
    ensures WinnersInv(s')
  {
    forall g, loc, job ensures Won(s', g, loc, job) <==> Won(s, g, loc, job) {
    }
  }

  lemma InsertKeepsWinners(s: State, h: nat)
    requires Inv(s) && Enabled(s, InsertLM(h, false)) && Inserts(s, InsertLM(h, false))
    ensures WinnersInv(Next(s, InsertLM(h, false)))
  {
    var s' := Next(s, InsertLM(h, false));
    var e := Inserted(h, s.db.locations[s.handlers[h].location], s.handlers[h].phase.job);
    assert forall loc, job :: !Won(s, h, loc, job);
    forall g, loc, job ensures Inserted(g, loc, job) in s'.log <==> Won(s', g, loc, job) {
      assert Inserted(g, loc, job) in s'.log <==> Inserted(g, loc, job) in s.log || Inserted(g, loc, job) == e;
      assert g != h ==> (Won(s', g, loc, job) <==> Won(s, g, loc, job));
    }
    forall a, b | 0 <= a < b < |s'.log| && s'.log[a].Inserted? && s'.log[b].Inserted? ensures s'.log[a].h != s'.log[b].h {
      if b == |s.log| {
        var x := s.log[a];
        assert Inserted(x.h, x.loc, x.job) in s.log;
      }
    }
  }

  // ---- runs ----

  lemma {:induction false} RunSafe(run: seq<State>, k: nat)
    requires IsRun(run) && k < |run|
    ensures Inv(run[k])
  {
    if k > 0 {
      RunSafe(run, k - 1);
      assert StepAt(run, k - 1);
      var a :| Enabled(run[k - 1], a) && run[k] == Next(run[k - 1], a);
      TableKept(run[k - 1], a);
      WinnersKept(run[k - 1], a);
    }
  }

  /** In every state of every run, a location and a job have at most one manager, so a
      worker's join returns at most one row, and none exactly if nobody serves its job. */
  lemma OneManagerEverywhere(run: seq<State>, k: nat, guid: Guid)
    requires IsRun(run) && k < |run|
    ensures OnePerJob(run[k].db.managers)
    ensures |JoinRows(run[k].db, guid)| <= 1
    ensures JoinRows(run[k].db, guid) == [] <==>
            !(&& guid in run[k].db.workers
              && (var w := run[k].db.workers[guid];
                  w.loc.Some? && w.job.Some? && Serves(run[k].db.managers, w.loc.value, w.job.value)))
  {
    RunSafe(run, k);
    JoinIsNoneIffUnserved(run[k].db, guid);
  }

  /** Handlers keep their identity, locations their IDs, and the log only grows. */
  ghost predicate Grows(s: State, s': State) {
    && s.log <= s'.log
    && (forall name :: name in s.db.locations ==>
          name in s'.db.locations && s'.db.locations[name] == s.db.locations[name])
    && (forall h :: h in s.handlers ==>
          h in s'.handlers && s'.handlers[h] == s.handlers[h].(phase := s'.handlers[h].phase))
  }

  lemma StepGrows(s: State, a: Action)
    requires Enabled(s, a)
    ensures Grows(s, Next(s, a))
  {
  }

  lemma StepsGrow(s: State, s': State)
    requires Steps(s, s')
    ensures Grows(s, s')
  {
    var a :| Enabled(s, a) && s' == Next(s, a);
    StepGrows(s, a);
  }

  lemma GrowsTransitive(s: State, t: State, u: State)
    requires Grows(s, t) && Grows(t, u)
    ensures Grows(s, u)
  {
  }

  lemma {:induction false} RunGrows(run: seq<State>, i: nat, j: nat)
    requires IsRun(run) && i <= j < |run|
    ensures Grows(run[i], run[j])
    decreases j - i
  {
    if i < j {
      RunGrows(run, i, j - 1);
      assert StepAt(run, j - 1);
      StepsGrow(run[j - 1], run[j]);
      GrowsTransitive(run[i], run[j - 1], run[j]);
    }
  }

  /** The row of the winner, in the terms of this state. */
  ghost predicate IsWinnersRow(s: State, h: nat, m: Manager) {
    && h in s.handlers && IsWin(s.handlers[h].phase)
    && s.handlers[h].location in s.db.locations
    && m == Manager(s.handlers[h].guid, s.handlers[h].hap, s.db.locations[s.handlers[h].location],
                    s.handlers[h].phase.reply.config.value)
  }

  /** Only an insertion of its row makes a handler win. */
  lemma StepWins(s: State, s': State, h: nat) returns (m: Manager)
    requires Steps(s, s') && h in s'.handlers && IsWin(s'.handlers[h].phase)
    requires !(h in s.handlers && IsWin(s.handlers[h].phase))
    ensures IsWinnersRow(s', h, m)
    ensures !Serves(s.db.managers, m.loc, m.job) && s'.db.managers == s.db.managers + [m]
  {
    var a :| Enabled(s, a) && s' == Next(s, a);
    assert a == InsertLM(h, false) && Inserts(s, a);
    m := s'.db.managers[|s.db.managers|];
  }

  /** An answer is final. */
  lemma AnswerStays(s: State, s': State, h: nat)
    requires Steps(s, s') && h in s.handlers && s.handlers[h].phase.Answered?
    ensures h in s'.handlers && s'.handlers[h] == s.handlers[h]
  {
  }

  /** A manager answered with a configuration and without "retry later" had its row inserted,
      when nobody served that job in its location. */
  lemma {:induction false} WinnerWasInserted(run: seq<State>, n: nat, h: nat) returns (i: nat, m: Manager)
    requires IsRun(run) && n < |run| && h in run[n].handlers && IsWin(run[n].handlers[h].phase)
    ensures i < n && IsWinnersRow(run[n], h, m)
    ensures !Serves(run[i].db.managers, m.loc, m.job)
    ensures run[i + 1].db.managers == run[i].db.managers + [m]
  {
    assert n > 0;
    var last := n - 1;
    assert StepAt(run, last);
    if h in run[last].handlers && IsWin(run[last].handlers[h].phase) {
      i, m := WinnerWasInserted(run, last, h);
      AnswerStays(run[last], run[n], h);
      StepsGrow(run[last], run[n]);
    } else {
      i := last;
      m := StepWins(run[last], run[n], h);
    }
  }

  lemma WinnerInLog(s: State, h: nat) returns (k: nat)
    requires Inv(s) && h in s.handlers && IsWin(s.handlers[h].phase)
    ensures s.handlers[h].location in s.db.locations && k < |s.log|
    ensures s.log[k] == Inserted(h, s.db.locations[s.handlers[h].location], s.handlers[h].phase.reply.config.value)
  {
    var me := s.handlers[h];
    assert me.location in s.db.locations;
    var loc, job := s.db.locations[me.location], me.phase.reply.config.value;
    assert me.phase == Answered(Reply(None, Some(job), false));
    assert Won(s, h, loc, job);
    assert Inserted(h, loc, job) in s.log;
    k :| 0 <= k < |s.log| && s.log[k] == Inserted(h, loc, job);
  }

  lemma LoggedHasWon(s: State, k: nat)
    requires Inv(s) && k < |s.log| && s.log[k].Inserted?
    ensures s.log[k].h in s.handlers && IsWin(s.handlers[s.log[k].h].phase)
  {
    var e := s.log[k];
    assert Inserted(e.h, e.loc, e.job) in s.log;
  }

  /** A handler that had not won by state `i` was inserted after it. */
  lemma InsertedSince(run: seq<State>, i: nat, j: nat, h: nat, k: nat)
    requires IsRun(run) && i <= j < |run| && k < |run[j].log|
    requires run[j].log[k].Inserted? && run[j].log[k].h == h
    requires h in run[i].handlers ==> !IsWin(run[i].handlers[h].phase)
    ensures |run[i].log| <= k
  {
    RunSafe(run, i);
    RunGrows(run, i, j);
    if k < |run[i].log| {
      LoggedHasWon(run[i], k);
      assert false;
    }
  }

  /** Of all handlers that compete for one location and job, at most one wins between two
      removals: two that win after state `i` have a removal of the first one's row after
      state `i`, too. */
  lemma AtMostOneWinner(run: seq<State>, i: nat, j: nat, g: nat, h: nat, loc: LocId, job: Job)
    requires IsRun(run) && i <= j < |run| && g != h
    requires Won(run[j], g, loc, job) && Won(run[j], h, loc, job)
    requires g in run[i].handlers ==> !IsWin(run[i].handlers[g].phase)
    requires h in run[i].handlers ==> !IsWin(run[i].handlers[h].phase)
    ensures RemovedAfter(run[i].log, run[j].log, loc, job)
  {
    RunSafe(run, j);
    RunGrows(run, i, j);
    var log := run[j].log;
    var m := WinnerInLog(run[j], g);
    var n := WinnerInLog(run[j], h);
    InsertedSince(run, i, j, g, m);
    InsertedSince(run, i, j, h, n);
    var a, b := if m < n then m else n, if m < n then n else m;
    assert log[a].Inserted? && log[b].Inserted? && Concerns(log[a], loc, job) && Concerns(log[b], loc, job);
    assert RemovedBetween(log, a, b, loc, job);
    var c :| a < c < b && log[c] == Removed(loc, job);
    assert log[|run[i].log|..][c - |run[i].log|] == log[c];
  }

  /** A manager that has a configuration is told to retry if and only if no row was inserted
      for it. */
  lemma RetryIffNotInserted(run: seq<State>, n: nat, h: nat, job: Job)
    requires IsRun(run) && n < |run| && h in run[n].handlers
    requires run[n].handlers[h].phase.Answered? && run[n].handlers[h].phase.reply.config == Some(job)
    ensures run[n].handlers[h].phase.reply.retryLater <==>
            forall loc :: Inserted(h, loc, job) !in run[n].log
  {
    RunSafe(run, n);
    var s, me := run[n], run[n].handlers[h];
    if !me.phase.reply.retryLater {
      assert Won(s, h, s.db.locations[me.location], job);
    }
    forall loc ensures Inserted(h, loc, job) in s.log <==> Won(s, h, loc, job) {
    }
  }

  ghost predicate RemovedAfter(x: seq<Event>, y: seq<Event>, loc: LocId, job: Job) {
    Removed(loc, job) in Later(x, y)
  }

  /** What an extension `y` of the log `x` has added. */
  function Later(x: seq<Event>, y: seq<Event>): seq<Event> {
    if x <= y then y[|x|..] else []
  }

  ghost predicate IsDeletion(s: State, s': State, loc: LocId, job: Job) {
    Serves(s.db.managers, loc, job) && !Serves(s'.db.managers, loc, job)
  }

  lemma LogGrows(run: seq<State>, i: nat, j: nat)
    requires IsRun(run) && i <= j < |run|
    ensures run[i].log <= run[j].log
  {
    RunGrows(run, i, j);
  }

  lemma {:induction false} FirstRise(bits: seq<bool>, i: nat, j: nat) returns (k: nat)
    requires i <= j < |bits| && !bits[i] && bits[j]
    ensures i <= k < j && !bits[k] && bits[k + 1]
    decreases j
  {
    if bits[j - 1] {
      k := FirstRise(bits, i, j - 1);
    } else {
      k := j - 1;
    }
  }

  /** A removal in the log is a row that the monitor has deleted. */
  lemma RemovalHappened(run: seq<State>, i: nat, j: nat, loc: LocId, job: Job) returns (k: nat)
    requires IsRun(run) && i <= j < |run| && RemovedAfter(run[i].log, run[j].log, loc, job)
    ensures i <= k < j && IsDeletion(run[k], run[k + 1], loc, job)
  {
    var bits := seq(|run|, n requires 0 <= n < |run| => RemovedAfter(run[i].log, run[n].log, loc, job));
    NothingAfterItself(run[i].log, loc, job);
    k := FirstRise(bits, i, j);
    RunStepRemoves(run, i, k, loc, job);
  }

  lemma NothingAfterItself(log: seq<Event>, loc: LocId, job: Job)
    ensures !RemovedAfter(log, log, loc, job)
  {
  }

  lemma RunStepRemoves(run: seq<State>, i: nat, k: nat, loc: LocId, job: Job)
    requires IsRun(run) && i <= k < |run| - 1
    requires RemovedAfter(run[i].log, run[k + 1].log, loc, job) && !RemovedAfter(run[i].log, run[k].log, loc, job)
    ensures IsDeletion(run[k], run[k + 1], loc, job)
  {
    LogGrows(run, i, k);
    InvOf(run, k);
    StepRemoves(run[k], run[k + 1], run[i].log, loc, job);
  }

  lemma InvOf(run: seq<State>, k: nat)
    requires IsRun(run) && k < |run| - 1
    ensures Inv(run[k]) && Steps(run[k], run[k + 1])
  {
    assert StepAt(run, k);
    RunSafe(run, k);
  }

  lemma StepRemoves(s: State, s': State, x: seq<Event>, loc: LocId, job: Job)
    requires Inv(s) && Steps(s, s') && x <= s.log
    requires RemovedAfter(x, s'.log, loc, job) && !RemovedAfter(x, s.log, loc, job)
    ensures IsDeletion(s, s', loc, job)
  {
    var a :| Enabled(s, a) && s' == Next(s, a);
    StepGrows(s, a);
    InLaterPart(x, s.log, s'.log, Removed(loc, job));
    RemovalDeletes(s, a, loc, job);
  }

  lemma InLaterPart(x: seq<Event>, y: seq<Event>, z: seq<Event>, e: Event)
    requires x <= y <= z && e in z[|x|..] && e !in y[|x|..]
    ensures e in z[|y|..]
  {
    assert z[|x|..] == y[|x|..] + z[|y|..];
  }

  lemma RemovalDeletes(s: State, a: Action, loc: LocId, job: Job)
    requires Inv(s) && Enabled(s, a)
    requires s.log <= Next(s, a).log && Removed(loc, job) in Next(s, a).log[|s.log|..]
    ensures Serves(s.db.managers, loc, job) && !Serves(Next(s, a).db.managers, loc, job)
  {
    match a {
      case RemoveManagedLM(guid) =>
        var ms := s.db.managers;
        assert Next(s, a).log[|s.log|..] == Removals(ms, guid);
        var x :| x in ms && x.guid == guid && Removed(loc, job) == Removed(x.loc, x.job);
        RemovalsOfPair(ms, guid, loc, job);
      case _ =>
    }
  }

  // ---- the race for a job ----

  /** Only its own insertion step makes a handler answer with a configuration. */
  lemma StepConfigures(s: State, s': State, h: nat, job: Job) returns (refused: bool)
    requires Steps(s, s') && h in s'.handlers && s'.handlers[h].phase.Answered?
    requires s'.handlers[h].phase.reply.config == Some(job)
    requires !(h in s.handlers && s.handlers[h].phase.Answered?)
    ensures At(s, h, Configured(job)) && s' == Next(s, InsertLM(h, refused))
  {
    var a :| Enabled(s, a) && s' == Next(s, a);
    assert a.InsertLM? && a.h == h;
    refused := a.refused;
  }

  /** A manager that has received a configuration has come to its insertion step, and is told
      to retry if and only if the database refused, or the job was served there by then. */
  lemma {:induction false} RetryIffServed(run: seq<State>, n: nat, h: nat, job: Job) returns (i: nat, refused: bool)
    requires IsRun(run) && n < |run| && h in run[n].handlers
    requires run[n].handlers[h].phase.Answered? && run[n].handlers[h].phase.reply.config == Some(job)
    ensures i < n && At(run[i], h, Configured(job)) && run[i + 1] == Next(run[i], InsertLM(h, refused))
    ensures run[i].handlers[h].location == run[n].handlers[h].location
    ensures run[n].handlers[h].phase.reply.retryLater <==>
            refused || !MayInsert(run[i].db, run[n].handlers[h].location, job)
  {
    assert n > 0;
    var last := n - 1;
    assert StepAt(run, last);
    if h in run[last].handlers && run[last].handlers[h].phase.Answered? {
      AnswerStays(run[last], run[n], h);
      i, refused := RetryIffServed(run, last, h, job);
    } else {
      i := last;
      refused := StepConfigures(run[last], run[n], h, job);
    }
  }

  ghost predicate HasPicked(s: State, h: nat, job: Job) {
    At(s, h, Picked(job)) || At(s, h, Configured(job))
  }

  lemma StepPicks(s: State, s': State, h: nat, job: Job)
    requires Steps(s, s') && HasPicked(s', h, job) && !HasPicked(s, h, job)
    ensures Enabled(s, PickJob(h, job)) && s' == Next(s, PickJob(h, job))
  {
    var a :| Enabled(s, a) && s' == Next(s, a);
    assert a == PickJob(h, job);
  }

  /** The job was free when the handler picked it. */
  lemma {:induction false} WasPicked(run: seq<State>, i: nat, h: nat, job: Job) returns (p: nat)
    requires IsRun(run) && i < |run| && HasPicked(run[i], h, job)
    ensures p < i && Enabled(run[p], PickJob(h, job)) && run[p + 1] == Next(run[p], PickJob(h, job))
  {
    assert i > 0;
    var last := i - 1;
    assert StepAt(run, last);
    if HasPicked(run[last], h, job) {
      p := WasPicked(run, last, h, job);
    } else {
      p := last;
      StepPicks(run[last], run[i], h, job);
    }
  }

  /** Handler `g` inserts the row for this location and job. */
  ghost predicate Takes(s: State, s': State, g: nat, loc: LocId, job: Job) {
    && At(s, g, Configured(job))
    && s.handlers[g].location in s.db.locations && s.db.locations[s.handlers[g].location] == loc
    && s' == Next(s, InsertLM(g, false)) && Inserts(s, InsertLM(g, false))
  }

  lemma StepServes(s: State, s': State, loc: LocId, job: Job) returns (g: nat)
    requires Steps(s, s') && !Serves(s.db.managers, loc, job) && Serves(s'.db.managers, loc, job)
    ensures Takes(s, s', g, loc, job)
  {
    var a :| Enabled(s, a) && s' == Next(s, a);
    assert a.InsertLM? && Inserts(s, a);
    g := a.h;
    var m :| m in s'.db.managers && m.loc == loc && m.job == job;
    assert m !in s.db.managers;
  }

  lemma {:induction false} AnswerStaysInRun(run: seq<State>, i: nat, j: nat, h: nat)
    requires IsRun(run) && i <= j < |run| && h in run[i].handlers && run[i].handlers[h].phase.Answered?
    ensures h in run[j].handlers && run[j].handlers[h] == run[i].handlers[h]
    decreases j
  {
    if i < j {
      AnswerStaysInRun(run, i, j - 1, h);
      assert StepAt(run, j - 1);
      AnswerStays(run[j - 1], run[j], h);
    }
  }

  /** A pair that is free at one moment and served at a later one is taken in between. */
  lemma TakenBetween(run: seq<State>, p: nat, i: nat, loc: LocId, job: Job) returns (k: nat, g: nat)
    requires IsRun(run) && p <= i < |run|
    requires !Serves(run[p].db.managers, loc, job) && Serves(run[i].db.managers, loc, job)
    ensures p <= k < i && Takes(run[k], run[k + 1], g, loc, job)
  {
    var bits := seq(|run|, n requires 0 <= n < |run| => Serves(run[n].db.managers, loc, job));
    k := FirstRise(bits, p, i);
    assert StepAt(run, k);
    g := StepServes(run[k], run[k + 1], loc, job);
  }

  /** When a handler finds its job served at its insertion step, another one has taken it
      between the moment the handler picked it and that step. */
  lemma RaceLost(run: seq<State>, i: nat, h: nat, job: Job) returns (p: nat, k: nat, g: nat)
    requires IsRun(run) && i < |run| && At(run[i], h, Configured(job))
    requires !MayInsert(run[i].db, run[i].handlers[h].location, job)
    ensures p < k < i && g != h
    ensures Enabled(run[p], PickJob(h, job)) && run[p + 1] == Next(run[p], PickJob(h, job))
    ensures run[i].handlers[h].location in run[i].db.locations
    ensures Takes(run[k], run[k + 1], g, run[i].db.locations[run[i].handlers[h].location], job)
  {
    p := WasPicked(run, i, h, job);
    RunGrows(run, p, i);
    var loc := run[i].db.locations[run[i].handlers[h].location];
    assert !Serves(run[p + 1].db.managers, loc, job);
    k, g := TakenBetween(run, p + 1, i, loc, job);
    if g == h {
      AnswerStaysInRun(run, k + 1, i, h);
    }
  }

  // ---- workers ----

  /** Only a join with one row makes a handler ask a manager. */
  lemma StepAsks(s: State, s': State, h: nat)
    requires Steps(s, s') && h in s'.handlers && s'.handlers[h].phase.Asking?
    requires !(h in s.handlers && s.handlers[h].phase.Asking?)
    ensures JoinRows(s.db, s'.handlers[h].guid) == [s'.handlers[h].phase.lm]
  {
  }

  /** A handler that keeps asking keeps asking the same manager. */
  lemma StepKeepsAsking(s: State, s': State, h: nat)
    requires Steps(s, s') && h in s.handlers && s.handlers[h].phase.Asking?
    requires h in s'.handlers && s'.handlers[h].phase.Asking?
    ensures s'.handlers[h] == s.handlers[h]
  {
  }

  /** A manager that a worker's handler asks was the one row of the worker's join. */
  lemma {:induction false} AskedWasJoined(run: seq<State>, n: nat, h: nat) returns (i: nat)
    requires IsRun(run) && n < |run| && h in run[n].handlers && run[n].handlers[h].phase.Asking?
    ensures i < n && JoinRows(run[i].db, run[n].handlers[h].guid) == [run[n].handlers[h].phase.lm]
  {
    assert n > 0;
    var last := n - 1;
    assert StepAt(run, last);
    if h in run[last].handlers && run[last].handlers[h].phase.Asking? {
      i := AskedWasJoined(run, last, h);
      StepKeepsAsking(run[last], run[n], h);
    } else {
      i := last;
      StepAsks(run[last], run[n], h);
    }
  }

  ghost predicate IsAnsweredWith(s: State, h: nat, m: Manager) {
    h in s.handlers && s.handlers[h].phase == Answered(Reply(Some(m), None, false))
  }

  /** Only a welcome makes a handler answer with a manager. */
  lemma StepAnswers(s: State, s': State, h: nat) returns (m: Manager)
    requires Steps(s, s') && h in s'.handlers && s'.handlers[h].phase.Answered? && s'.handlers[h].phase.reply.lm.Some?
    requires !(h in s.handlers && s.handlers[h].phase.Answered?)
    ensures IsAnsweredWith(s', h, m)
    ensures Enabled(s, AskLM(h, true)) && s' == Next(s, AskLM(h, true))
    ensures s.handlers[h] == s'.handlers[h].(phase := Asking(m))
  {
    var a :| Enabled(s, a) && s' == Next(s, a);
    assert a == AskLM(h, true);
    m := s.handlers[h].phase.lm;
  }

  /** A worker is answered with a manager only if that manager served its assigned job in
      its location when the handler looked, and welcomed it later on. */
  lemma {:induction false} AnsweredWasWelcomed(run: seq<State>, n: nat, h: nat) returns (i: nat, k: nat, m: Manager)
    requires IsRun(run) && n < |run| && h in run[n].handlers
    requires run[n].handlers[h].phase.Answered? && run[n].handlers[h].phase.reply.lm.Some?
    ensures i < k < n && IsAnsweredWith(run[n], h, m)
    ensures JoinRows(run[i].db, run[n].handlers[h].guid) == [m]
    ensures Enabled(run[k], AskLM(h, true)) && run[k + 1] == Next(run[k], AskLM(h, true))
    ensures run[k].handlers[h].phase == Asking(m)
  {
    assert n > 0;
    var last := n - 1;
    assert StepAt(run, last);
    if h in run[last].handlers && run[last].handlers[h].phase.Answered? {
      AnswerStays(run[last], run[n], h);
      i, k, m := AnsweredWasWelcomed(run, last, h);
    } else {
      k := last;
      m := StepAnswers(run[last], run[n], h);
      i := AskedWasJoined(run, k, h);
    }
  }

  /** The step with which a worker is told to come back later leaves it stored without a
      job, so that no manager is found for it, unless the database refuses. */
  lemma LaterIsStored(s: State, a: Action, h: nat)
    requires Enabled(s, a) && h in s.handlers && IsWorker(s.handlers[h].agentType)
    requires !s.handlers[h].phase.Answered?
    requires Next(s, a).handlers[h].phase.Answered? && Next(s, a).handlers[h].phase.reply.lm.None?
    requires InPhase(s.handlers[h])
    ensures Next(s, a).handlers[h].phase == LATER
    ensures a == Store(h, true) || a == Store(h, false)
    ensures if a.ok then
              && s.handlers[h].guid in Next(s, a).db.workers
              && Next(s, a).db.workers[s.handlers[h].guid].job == None
              && JoinRows(Next(s, a).db, s.handlers[h].guid) == []
            else Next(s, a).db == s.db
  {
    var me := s.handlers[h];
    match a {
      case Store(g, ok) =>
        assert g == h;
        if ok {
          StoredIsUnassigned(Next(s, a).db, me.guid);
        }
      case _ =>
    }
  }

  lemma StepLater(s: State, s': State, h: nat) returns (ok: bool)
    requires Steps(s, s') && h in s.handlers && InPhase(s.handlers[h]) && IsWorker(s.handlers[h].agentType)
    requires !s.handlers[h].phase.Answered?
    requires h in s'.handlers && s'.handlers[h].phase.Answered? && s'.handlers[h].phase.reply.lm.None?
    ensures s'.handlers[h].phase == Answered(Reply(None, None, true))
    ensures Enabled(s, Store(h, ok)) && s' == Next(s, Store(h, ok))
    ensures var me := s'.handlers[h];
            if ok then
              && IsStoredAs(s.db, s'.db, me.guid, me.hap, me.agentType, me.subtypes, me.location)
              && JoinRows(s'.db, me.guid) == []
            else s'.db == s.db
  {
    var a :| Enabled(s, a) && s' == Next(s, a);
    LaterIsStored(s, a, h);
    ok := a.ok;
    var me := s.handlers[h];
    AddedIsStored(s.db, me.guid, me.hap, me.agentType, me.subtypes, me.location);
  }

  /** Handlers answer in a later step than they arrive. */
  lemma StepArrives(s: State, s': State, h: nat)
    requires Steps(s, s') && h !in s.handlers && h in s'.handlers
    ensures s'.handlers[h].phase.Start?
  {
  }

  /** Every worker that is not answered with a manager is told to come back later, and some
      step before has stored it with no job, so that no manager was found for it, or the
      database refused that and nothing changed. */
  lemma {:induction false} WorkerWasStored(run: seq<State>, n: nat, h: nat) returns (i: nat, ok: bool)
    requires IsRun(run) && n < |run| && h in run[n].handlers && IsWorker(run[n].handlers[h].agentType)
    requires run[n].handlers[h].phase.Answered? && run[n].handlers[h].phase.reply.lm.None?
    ensures run[n].handlers[h].phase == Answered(Reply(None, None, true))
    ensures i < n && Enabled(run[i], Store(h, ok)) && run[i + 1] == Next(run[i], Store(h, ok))
    ensures var me := run[n].handlers[h];
            if ok then
              && IsStoredAs(run[i].db, run[i + 1].db, me.guid, me.hap, me.agentType, me.subtypes, me.location)
              && JoinRows(run[i + 1].db, me.guid) == []
            else run[i + 1].db == run[i].db
  {
    assert n > 0;
    var last := n - 1;
    assert StepAt(run, last);
    if h in run[last].handlers && run[last].handlers[h].phase.Answered? {
      AnswerStays(run[last], run[n], h);
      i, ok := WorkerWasStored(run, last, h);
    } else {
      i := last;
      PhasesFit(run, last);
      if h !in run[last].handlers {
        StepArrives(run[last], run[n], h);
        assert false;
      }
      StepsGrow(run[last], run[n]);
      ok := StepLater(run[last], run[n], h);
    }
  }

  /** Stored by one handler, given by the user and registered again, a worker is led to
      the manager that serves the job in its location. */
  lemma AssignedIsAsked(run: seq<State>, n: nat, h: nat, g: nat, m: Manager)
    requires IsRun(run) && n < |run| && At(run[n], h, Storing) && At(run[n], g, Start)
    requires IsWorker(run[n].handlers[g].agentType) && run[n].handlers[g].guid == run[n].handlers[h].guid
    requires run[n].handlers[h].location in run[n].db.locations
    requires m in run[n].db.managers && m.loc == run[n].db.locations[run[n].handlers[h].location]
    ensures var stored := Next(run[n], Store(h, true));
            && Enabled(stored, AssignWorker(run[n].handlers[h].guid, Some(m.job)))
            && (var given := Next(stored, AssignWorker(run[n].handlers[h].guid, Some(m.job)));
                && Enabled(given, FindLM(g, true))
                && At(Next(given, FindLM(g, true)), g, Asking(m)))
  {
    RunSafe(run, n);
    var me := run[n].handlers[h];
    AssignedIsFound(run[n].db, me.guid, me.hap, me.agentType, me.subtypes, me.location, m);
  }

  /** Only these steps give an answer with neither a manager nor a configuration. */
  lemma StepEmptyAnswer(s: State, s': State, h: nat) returns (a: Action)
    requires Steps(s, s') && h in s.handlers && InPhase(s.handlers[h]) && s.handlers[h].agentType.LocalManager?
    requires !s.handlers[h].phase.Answered?
    requires h in s'.handlers && s'.handlers[h].phase.Answered? && s'.handlers[h].phase.reply.config.None?
    ensures Enabled(s, a) && s' == Next(s, a) && (a == StoreIdle(h, true) || a == StoreIdle(h, false) || a == LoadConfig(h, false))
    ensures s'.handlers[h].phase == Answered(Reply(None, None, true))
  {
    a :| Enabled(s, a) && s' == Next(s, a);
  }

  /** A local manager that gets no configuration is told to come back later. Some step before
      has stored it among the workers, without a job, or the database refused that, or a
      configuration could not be loaded; in these cases nothing changed. */
  lemma {:induction false} ManagerWasStored(run: seq<State>, n: nat, h: nat) returns (i: nat, a: Action)
    requires IsRun(run) && n < |run| && h in run[n].handlers && run[n].handlers[h].agentType.LocalManager?
    requires run[n].handlers[h].phase.Answered? && run[n].handlers[h].phase.reply.config.None?
    ensures run[n].handlers[h].phase == Answered(Reply(None, None, true))
    ensures i < n && Enabled(run[i], a) && run[i + 1] == Next(run[i], a)
    ensures a == StoreIdle(h, true) || a == StoreIdle(h, false) || a == LoadConfig(h, false)
    ensures var me := run[n].handlers[h];
            if a == StoreIdle(h, true)
            then IsStoredAs(run[i].db, run[i + 1].db, me.guid, me.hap, me.agentType, me.subtypes, me.location)
            else run[i + 1].db == run[i].db
  {
    assert n > 0;
    var last := n - 1;
    assert StepAt(run, last);
    if h in run[last].handlers && run[last].handlers[h].phase.Answered? {
      AnswerStays(run[last], run[n], h);
      i, a := ManagerWasStored(run, last, h);
    } else {
      i := last;
      PhasesFit(run, last);
      if h !in run[last].handlers {
        StepArrives(run[last], run[n], h);
        assert false;
      }
      StepsGrow(run[last], run[n]);
      a := StepEmptyAnswer(run[last], run[n], h);
      var me := run[n].handlers[h];
      AddedIsStored(run[i].db, me.guid, me.hap, me.agentType, me.subtypes, me.location);
    }
  }

  /** Workers and managers go through phases of their own. */
  predicate InPhase(me: Handler) {
    match me.phase
    case NoJob => me.agentType.LocalManager?
    case Picked(_) => me.agentType.LocalManager?
    case Configured(_) => me.agentType.LocalManager?
    case Asking(_) => IsWorker(me.agentType)
    case Unwelcome => IsWorker(me.agentType)
    case Storing => IsWorker(me.agentType)
    case _ => true
  }

  lemma {:induction false} PhasesFit(run: seq<State>, n: nat)
    requires IsRun(run) && n < |run|
    ensures forall h :: h in run[n].handlers ==> InPhase(run[n].handlers[h])
  {
    if n > 0 {
      PhasesFit(run, n - 1);
      assert StepAt(run, n - 1);
    }
  }
}
