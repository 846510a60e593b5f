/** The monitor's trimming of the log table: all rows from the (`num` + 1)-th newest on are
    deleted. */
module LogTrim {
  import opened Collections

  /** The rows with larger IDs. */
  function Newer(ids: set<nat>, id: nat): set<nat> {
    set i | i in ids && i > id
  }

  /** `ORDER BY ID DESC LIMIT 1 OFFSET num`: the ID with exactly `num` newer ones. */
  ghost predicate IsAtOffset(ids: set<nat>, num: nat, id: nat) {
    id in ids && |Newer(ids, id)| == num
  }

  /** What the DELETE with the join on that row leaves. */
  ghost predicate IsTrimmed(ids: set<nat>, num: nat, kept: set<nat>) {
    if exists id: nat :: IsAtOffset(ids, num, id) then
      exists id: nat :: IsAtOffset(ids, num, id) && kept == set i | i in ids && !(i <= id)
    else kept == ids
  }

  /** In a set of more than `num` IDs some ID has exactly `num` newer ones. */
  lemma {:induction false} OffsetExists(ids: set<nat>, num: nat) returns (id: nat)
    requires num < |ids|
    ensures IsAtOffset(ids, num, id)
    decreases |ids|
  {
    var least := Least(ids);
    if num == |ids| - 1 {
      id := least;
      assert Newer(ids, least) == ids - {least};
    } else {
      id := OffsetExists(ids - {least}, num);
      assert Newer(ids, id) == Newer(ids - {least}, id);
    }
  }

  lemma {:induction false} Least(ids: set<nat>) returns (id: nat)
    requires ids != {}
    ensures id in ids && forall i :: i in ids ==> id <= i
    decreases |ids|
  {
    id :| id in ids;
    if ids != {id} {
      var rest := ids - {id};
      assert rest != {};
      var least := Least(rest);
      assert forall i :: i in ids ==> i == id || i in rest;
      if least < id {
        id := least;
      }
    } else {
      assert forall i :: i in ids ==> i in {id};
    }
  }

  /** Trimming keeps the `num` newest rows, or all of them when there are no more: every
      deleted row is older than every kept one. */
  lemma TrimmedKeepsNewest(ids: set<nat>, num: nat, kept: set<nat>)
    requires IsTrimmed(ids, num, kept)
    ensures kept <= ids
    ensures |kept| == if |ids| <= num then |ids| else num
    ensures |ids| <= num ==> kept == ids
    ensures forall i, k :: i in ids - kept && k in kept ==> i < k
  {
    if exists id: nat :: IsAtOffset(ids, num, id) {
      var id :| IsAtOffset(ids, num, id) && kept == set i | i in ids && !(i <= id);
      assert kept == Newer(ids, id);
      assert kept <= ids - {id};
      SubsetSize(kept, ids - {id});
    } else if num < |ids| {
      var id := OffsetExists(ids, num);
      assert false;
    }
  }

  /** So the outcome is determined, and trimming again changes nothing. */
  lemma TrimmedTwice(ids: set<nat>, num: nat, kept: set<nat>, again: set<nat>)
    requires IsTrimmed(ids, num, kept) && IsTrimmed(kept, num, again)
    ensures again == kept
  {
    TrimmedKeepsNewest(ids, num, kept);
    TrimmedKeepsNewest(kept, num, again);
  }

  /** `deleteManagedLMLogMessagesIfMoreThan`, on the IDs of the table. */
  class LogTable {
    var ids: set<nat>

    constructor (ids: set<nat>)
      ensures this.ids == ids
    {
      this.ids := ids;
    }

    /** `broken` says that the database rejects the statement. */
    method DeleteIfMoreThan(num: nat, broken: bool) returns (ok: bool)
      modifies this
      ensures ok == !broken
      ensures if ok then IsTrimmed(old(ids), num, ids) else ids == old(ids)
    {
      ok := !broken;
      if ok && exists id :: id in ids && |Newer(ids, id)| == num {
        var id :| id in ids && |Newer(ids, id)| == num;
        assert IsAtOffset(ids, num, id);
        ids := set i | i in ids && !(i <= id);
      }
    }
  }
}
