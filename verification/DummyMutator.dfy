/** `DummyM.Do`: the fallback mutator for files without usable strings. */
module DummyMutator {
  import opened Bytes

  /** A filler byte: any but 0xFF. */
  predicate IsFiller(c: byte) {
    c <= 0xFE
  }

  /** Same length, changed inside [start, finish) only; the last byte always stays. */
  ghost predicate IsWindowEdit(b: seq<byte>, r: seq<byte>, start: nat, finish: nat) {
    && |r| == |b|
    && start <= finish <= |b| && (b != [] ==> finish < |b|)
    && (forall k :: 0 <= k < |b| && !(start <= k < finish) ==> r[k] == b[k])
    && (forall k :: start <= k < finish ==> IsFiller(r[k]))
  }

  /** A part of the input from `ofs` on. Only the whole input reaches its end. */
  ghost predicate IsPart(b: seq<byte>, r: seq<byte>, ofs: nat) {
    && ofs + |r| <= |b|
    && (ofs + |r| == |b| ==> r == b)
    && r == b[ofs..ofs + |r|]
  }

  /** The input with a block of filler put in at `split`, to less than twice its length. */
  ghost predicate IsInsertion(b: seq<byte>, r: seq<byte>, split: nat) {
    && split < |b| < |r| < 2 * |b|
    && r[..split] == b[..split]
    && r[split + (|r| - |b|)..] == b[split..]
    && (forall k :: split <= k < split + (|r| - |b|) ==> IsFiller(r[k]))
  }

  /** What the fallback mutator may return. */
  ghost predicate IsMutation(b: seq<byte>, r: seq<byte>) {
    || (exists start, finish :: IsWindowEdit(b, r, start, finish))
    || (exists ofs :: IsPart(b, r, ofs))
    || (exists split :: IsInsertion(b, r, split))
  }

  /** Taking the inserted block out gives the input back. */
  lemma InsertionUndone(b: seq<byte>, r: seq<byte>, split: nat)
    requires IsInsertion(b, r, split)
    ensures r[..split] + r[split + (|r| - |b|)..] == b
  {
    assert b == b[..split] + b[split..];
  }

  /** The three shapes exclude each other by length, up to a copy of the input. */
  lemma ShapesByLength(b: seq<byte>, r: seq<byte>)
    ensures (exists start, finish :: IsWindowEdit(b, r, start, finish)) ==> |r| == |b|
    ensures (exists ofs :: IsPart(b, r, ofs)) ==> |r| < |b| || r == b
    ensures (exists split :: IsInsertion(b, r, split)) ==> |b| < |r|
  {
    forall ofs | IsPart(b, r, ofs) ensures |r| < |b| || r == b {
    }
  }

  /** One mutation, as drawn: the kind of change, and the new length if that changes. */
  method Do(b: seq<byte>, draw: nat, nl: nat) returns (ret: array<byte>)
    requires draw < 2 && if b == [] then nl == 0 else nl < 2 * |b|
    ensures fresh(ret) && IsMutation(b, ret[..])
    ensures draw == 0 ==> exists start, finish :: IsWindowEdit(b, ret[..], start, finish)
    ensures draw == 1 ==> ret.Length == nl
    ensures draw == 1 && |b| < nl ==> exists split :: IsInsertion(b, ret[..], split)
    ensures draw == 1 && nl <= |b| ==> exists ofs :: IsPart(b, ret[..], ofs)
  {
    if draw == 0 {
      var finish := Ran(|b|);
      var start := Ran(finish);
      ret := EditWindow(b, start, finish);
    } else if nl > |b| {
      var split := Ran(|b|);
      ret := InsertFiller(b, nl, split);
    } else {
      var ofs := Ran(|b| - nl);
      ret := TakePart(b, nl, ofs);
    }
  }

  method TakePart(b: seq<byte>, nl: nat, ofs: nat) returns (ret: array<byte>)
    requires nl <= |b| && if nl == |b| then ofs == 0 else ofs < |b| - nl
    ensures fresh(ret) && ret.Length == nl && IsPart(b, ret[..], ofs)
  {
    ret := new byte[nl];
    forall k | 0 <= k < nl {
      ret[k] := b[ofs + k];
    }
  }

  method EditWindow(b: seq<byte>, start: nat, finish: nat) returns (ret: array<byte>)
    requires start <= finish <= |b| && (b != [] ==> finish < |b|)
    ensures fresh(ret) && IsWindowEdit(b, ret[..], start, finish)
  {
    ret := new byte[|b|];
    forall k | 0 <= k < |b| {
      ret[k] := b[k];
    }
    for i := start to finish
      invariant forall k :: 0 <= k < |b| && !(start <= k < i) ==> ret[k] == b[k]
      invariant forall k :: start <= k < i ==> IsFiller(ret[k])
    {
      var c := RanByte();
      ret[i] := c;
    }
  }

  method InsertFiller(b: seq<byte>, nl: nat, split: nat) returns (ret: array<byte>)
    requires split < |b| < nl < 2 * |b|
    ensures fresh(ret) && ret.Length == nl && IsInsertion(b, ret[..], split)
  {
    ret := new byte[nl];
    forall k | 0 <= k < split {
      ret[k] := b[k];
    }
    forall k | split <= k < |b| {
      ret[nl - |b| + k] := b[k];
    }
    for i := split to nl - (|b| - split)
      invariant forall k :: 0 <= k < split ==> ret[k] == b[k]
      invariant forall k :: split <= k < |b| ==> ret[nl - |b| + k] == b[k]
      invariant forall k :: split <= k < i ==> IsFiller(ret[k])
    {
      var c := RanByte();
      ret[i] := c;
    }
    assert ret[split + (nl - |b|)..] == b[split..];
  }
}
