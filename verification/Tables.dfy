/** The global manager's tables and its SQL statements, each as one atomic step. */
module Tables {
  import opened Records

  type Guid = string
  type LocId = nat
  type Job = nat

  datatype AgentType = TestcaseGenerator | TestcaseRunner | TestcaseEvaluator | LocalManager | GlobalManager

  /** A row of `localmanagers`. */
  datatype Manager = Manager(guid: Guid, hap: string, loc: LocId, job: Job)

  /** A row of `workers`, without its key; None stands for NULL. */
  datatype WorkerRow = WorkerRow(hap: string, job: Option<Job>, loc: Option<LocId>, agentType: AgentType, subtypes: string)

  /** `locations` (names are unique), `location_fuzzjobs`, `localmanagers` and `workers`
      (keyed by GUID, as its REPLACE statement requires). */
  datatype Db = Db(locations: map<string, LocId>, fuzzjobs: set<(LocId, Job)>, managers: seq<Manager>, workers: map<Guid, WorkerRow>)

  predicate Serves(ms: seq<Manager>, loc: LocId, job: Job) {
    exists m :: m in ms && m.loc == loc && m.job == job
  }

  /** The job is assigned to the named location and no manager there serves it. */
  predicate Unserved(db: Db, name: string, job: Job) {
    && name in db.locations
    && (db.locations[name], job) in db.fuzzjobs
    && !Serves(db.managers, db.locations[name], job)
  }

  /** The constraint on `localmanagers`: one row for a location and a job; the location is
      not NULL. */
  predicate MayInsert(db: Db, name: string, job: Job) {
    name in db.locations && !Serves(db.managers, db.locations[name], job)
  }

  function InsertManager(db: Db, guid: Guid, hap: string, name: string, job: Job): Db
    requires name in db.locations
  {
    db.(managers := db.managers + [Manager(guid, hap, db.locations[name], job)])
  }

  /** The rows that a DELETE by GUID leaves. */
  function Others(ms: seq<Manager>, guid: Guid): (r: seq<Manager>)
    ensures forall m :: m in r <==> m in ms && m.guid != guid
  {
    if ms == [] then [] else
    var n := |ms| - 1;
    Others(ms[..n], guid) + if ms[n].guid != guid then [ms[n]] else []
  }

  /** REPLACE INTO workers: the agent with no job. */
  function AddWorker(db: Db, guid: Guid, hap: string, agentType: AgentType, subtypes: string, name: string): Db {
    var loc := if name in db.locations then Some(db.locations[name]) else None;
    db.(workers := db.workers[guid := WorkerRow(hap, None, loc, agentType, subtypes)])
  }

  /** The agent's row is now this one, without a job; nothing else has changed. */
  ghost predicate IsStoredAs(db: Db, after: Db, guid: Guid, hap: string, agentType: AgentType, subtypes: string, name: string) {
    && guid in after.workers
    && after.workers[guid].job == None
    && after.workers[guid].hap == hap && after.workers[guid].agentType == agentType && after.workers[guid].subtypes == subtypes
    && (name in db.locations ==> after.workers[guid].loc == Some(db.locations[name]))
    && (name !in db.locations ==> after.workers[guid].loc == None)
    && after.workers - {guid} == db.workers - {guid}
    && after.locations == db.locations && after.fuzzjobs == db.fuzzjobs && after.managers == db.managers
  }

  lemma AddedIsStored(db: Db, guid: Guid, hap: string, agentType: AgentType, subtypes: string, name: string)
    ensures IsStoredAs(db, AddWorker(db, guid, hap, agentType, subtypes, name), guid, hap, agentType, subtypes, name)
  {
  }

  /** The managers that serve the worker's job in its location: a join on two columns that
      may be NULL, in which case nothing matches. */
  function JoinRows(db: Db, guid: Guid): seq<Manager> {
    if guid !in db.workers then [] else Matching(db.managers, db.workers[guid])
  }

  function Matching(ms: seq<Manager>, w: WorkerRow): (r: seq<Manager>)
    ensures forall m :: m in r <==> m in ms && w.loc == Some(m.loc) && w.job == Some(m.job)
  {
    if ms == [] then [] else
    var n := |ms| - 1;
    Matching(ms[..n], w) + if w.loc == Some(ms[n].loc) && w.job == Some(ms[n].job) then [ms[n]] else []
  }

  /** At most one manager for each location and job. */
  ghost predicate OnePerJob(ms: seq<Manager>) {
    forall i, j :: 0 <= i < j < |ms| ==> !(ms[i].loc == ms[j].loc && ms[i].job == ms[j].job)
  }

  lemma AppendManager(ms: seq<Manager>, m: Manager)
    requires OnePerJob(ms) && !Serves(ms, m.loc, m.job)
    ensures OnePerJob(ms + [m])
    ensures forall loc, job :: Serves(ms + [m], loc, job) <==> Serves(ms, loc, job) || (m.loc == loc && m.job == job)
  {
    forall i | 0 <= i < |ms| ensures !(ms[i].loc == m.loc && ms[i].job == m.job) {
      assert ms[i] in ms;
    }
    forall loc, job ensures Serves(ms + [m], loc, job) <==> Serves(ms, loc, job) || (m.loc == loc && m.job == job) {
      assert m in ms + [m];
      assert forall x :: x in ms + [m] <==> x in ms || x == m;
    }
  }

  lemma {:induction false} OthersOnePerJob(ms: seq<Manager>, guid: Guid)
    requires OnePerJob(ms)
    ensures OnePerJob(Others(ms, guid))
    decreases |ms|
  {
    if ms != [] {
      var n := |ms| - 1;
      OthersOnePerJob(ms[..n], guid);
      if ms[n].guid != guid {
        LastIsAlone(ms, guid);
        AppendManager(Others(ms[..n], guid), ms[n]);
      }
    }
  }

  lemma LastIsAlone(ms: seq<Manager>, guid: Guid)
    requires OnePerJob(ms) && ms != []
    ensures var m := ms[|ms| - 1]; !Serves(Others(ms[..|ms| - 1], guid), m.loc, m.job)
  {
    var n := |ms| - 1;
    forall x | x in Others(ms[..n], guid) ensures !(x.loc == ms[n].loc && x.job == ms[n].job) {
      assert x in ms[..n];
      var k :| 0 <= k < n && ms[..n][k] == x;
      assert ms[k] == x;
    }
  }

  lemma {:induction false} AtMostOneMatch(ms: seq<Manager>, w: WorkerRow)
    requires OnePerJob(ms)
    ensures |Matching(ms, w)| <= 1
  {
    if ms != [] {
      var n := |ms| - 1;
      AtMostOneMatch(ms[..n], w);
      var some := Matching(ms[..n], w);
      if some != [] {
        assert some[0] in some;
        assert some[0] in ms[..n];
        var k :| 0 <= k < n && ms[k] == some[0];
        assert !(ms[k].loc == ms[n].loc && ms[k].job == ms[n].job);
      }
    }
  }

  /** `getLMServiceDescriptorForWorker` accepts exactly one row; under the constraint that
      means: it answers None if and only if no manager serves the worker's job in the
      worker's location. */
  lemma JoinIsNoneIffUnserved(db: Db, guid: Guid)
    requires OnePerJob(db.managers)
    ensures |JoinRows(db, guid)| <= 1
    ensures |JoinRows(db, guid)| == 1 <==>
            && guid in db.workers
            && (var w := db.workers[guid]; w.loc.Some? && w.job.Some? && Serves(db.managers, w.loc.value, w.job.value))
  {
    if guid in db.workers {
      var w := db.workers[guid];
      AtMostOneMatch(db.managers, w);
      if w.loc.Some? && w.job.Some? && Serves(db.managers, w.loc.value, w.job.value) {
        var m :| m in db.managers && m.loc == w.loc.value && m.job == w.job.value;
        assert m in Matching(db.managers, w);
      }
      if |JoinRows(db, guid)| == 1 {
        assert JoinRows(db, guid)[0] in Matching(db.managers, w);
      }
    }
  }

  /** `GMDatabaseManager`: one connection to the tables. `broken` says that the database
      rejects the statement for reasons of its own. */
  class GMDatabaseManager {
    var db: Db

    constructor (db: Db)
      ensures this.db == db
    {
      this.db := db;
    }

    /** The job that the query picks, and None for -1: when there is none, or on an error. */
    method GetFuzzJobWithoutLM(location: string, broken: bool) returns (job: Option<Job>)
      ensures job.Some? ==> Unserved(db, location, job.value)
      ensures job.Some? ==> location in db.locations && (db.locations[location], job.value) in db.fuzzjobs
                            && forall m :: m in db.managers ==> !(m.loc == db.locations[location] && m.job == job.value)
      ensures job.None? <==> broken || forall j :: !Unserved(db, location, j)
    {
      if broken || location !in db.locations {
        return None;
      }
      var loc := db.locations[location];
      if exists row :: row in db.fuzzjobs && row.0 == loc && !Serves(db.managers, loc, row.1) {
        var row :| row in db.fuzzjobs && row.0 == loc && !Serves(db.managers, loc, row.1);
        assert row == (row.0, row.1) && Unserved(db, location, row.1);
        return Some(row.1);
      }
      assert forall j :: (loc, j) in db.fuzzjobs ==> (loc, j).0 == loc;
      return None;
    }

    /** False stands for the exception. */
    method SetLMForLocationAndFuzzJob(location: string, guid: Guid, hap: string, job: Job, broken: bool) returns (ok: bool)
      modifies this
      ensures ok <==> !broken && location in old(db).locations
                      && forall m :: m in old(db).managers ==> !(m.loc == old(db).locations[location] && m.job == job)
      ensures ok <==> !broken && MayInsert(old(db), location, job)
      ensures db == if ok then InsertManager(old(db), guid, hap, location, job) else old(db)
      ensures ok ==> db.managers == old(db).managers + [Manager(guid, hap, old(db).locations[location], job)]
      ensures old(OnePerJob(db.managers)) ==> OnePerJob(db.managers)
    {
      ok := !broken && MayInsert(db, location, job);
      if ok {
        db := InsertManager(db, guid, hap, location, job);
      }
    }

    method RemoveManagedLM(guid: Guid, broken: bool) returns (ok: bool)
      modifies this
      ensures ok == !broken
      ensures db == if ok then old(db).(managers := Others(old(db).managers, guid)) else old(db)
      ensures old(OnePerJob(db.managers)) ==> OnePerJob(db.managers)
    {
      ok := !broken;
      if ok {
        if OnePerJob(db.managers) {
          OthersOnePerJob(db.managers, guid);
        }
        db := db.(managers := Others(db.managers, guid));
      }
    }

    /** None stands for the null descriptor. */
    method GetLMServiceDescriptorForWorker(guid: Guid, broken: bool) returns (lm: Option<Manager>)
      ensures lm.Some? <==> !broken && |JoinRows(db, guid)| == 1
      ensures lm.Some? ==> JoinRows(db, guid) == [lm.value]
    {
      if broken {
        return None;
      }
      var rows := JoinRows(db, guid);
      if |rows| == 1 {
        return Some(rows[0]);
      }
      return None;
    }

    method AddWorkerToDatabase(guid: Guid, hap: string, agentType: AgentType, subtypes: string, location: string, broken: bool)
      returns (ok: bool)
      modifies this
      ensures ok == !broken
      ensures db == if ok then AddWorker(old(db), guid, hap, agentType, subtypes, location) else old(db)
      ensures ok ==> IsStoredAs(old(db), db, guid, hap, agentType, subtypes, location)
      ensures ok ==> JoinRows(db, guid) == []
    {
      ok := !broken;
      if ok {
        AddedIsStored(db, guid, hap, agentType, subtypes, location);
        db := AddWorker(db, guid, hap, agentType, subtypes, location);
        StoredIsUnassigned(db, guid);
      }
    }

    method RemoveWorkerFromDatabase(guid: Guid, broken: bool) returns (ok: bool)
      modifies this
      ensures ok == !broken
      ensures db == if ok then old(db).(workers := old(db).workers - {guid}) else old(db)
      ensures ok ==> JoinRows(db, guid) == []
      ensures forall g :: g != guid ==> JoinRows(db, g) == old(JoinRows(db, g))
    {
      ok := !broken;
      if ok {
        db := db.(workers := db.workers - {guid});
      }
    }
  }

  /** A stored worker without a job is joined with no manager. */
  lemma StoredIsUnassigned(db: Db, guid: Guid)
    requires guid in db.workers && db.workers[guid].job == None
    ensures JoinRows(db, guid) == []
  {
    NullMatchesNothing(db.managers, db.workers[guid]);
  }

  /** A worker that is stored, and then assigned a job that a manager serves in its location,
      is joined with that manager. */
  lemma AssignedIsFound(db: Db, guid: Guid, hap: string, agentType: AgentType, subtypes: string, name: string, m: Manager)
    requires OnePerJob(db.managers) && m in db.managers
    requires name in db.locations && m.loc == db.locations[name]
    ensures var stored := AddWorker(db, guid, hap, agentType, subtypes, name);
            && guid in stored.workers
            && JoinRows(stored.(workers := stored.workers[guid := stored.workers[guid].(job := Some(m.job))]), guid) == [m]
  {
    var w := AddWorker(db, guid, hap, agentType, subtypes, name).workers[guid].(job := Some(m.job));
    AtMostOneMatch(db.managers, w);
    assert m in Matching(db.managers, w);
  }

  lemma {:induction false} NullMatchesNothing(ms: seq<Manager>, w: WorkerRow)
    requires w.job == None
    ensures Matching(ms, w) == []
  {
    if ms != [] {
      NullMatchesNothing(ms[..|ms| - 1], w);
    }
  }
}
