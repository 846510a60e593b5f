/** Runs of accepted bytes. A digester reports exactly the maximal runs that are long
    enough; this module says what that means and that it determines the report. */
module Segments {
  import opened Bytes
  import opened Records

  /** [p, p + n) is a non-empty run of accepted positions that neither side extends. */
  ghost predicate IsRun(acc: seq<bool>, p: nat, n: nat) {
    && 0 < n
    && p + n <= |acc|
    && (forall k :: p <= k < p + n ==> acc[k])
    && (p == 0 || !acc[p - 1])
    && (p + n == |acc| || !acc[p + n])
  }

  /** `t` is the record of a maximal run of at least `lim` bytes. Its terminator flag is
      set by a zero byte, and by the end of the file as well. */
  ghost predicate IsText(b: seq<byte>, acc: seq<bool>, enc: Encoding, lim: nat, t: Text)
    requires |acc| == |b|
  {
    && t.enc == enc
    && lim <= t.len
    && IsRun(acc, t.pos, t.len)
    && t.term == (t.End() == |b| || IsTerminator(b[t.End()]))
  }

  ghost predicate Sorted(ts: seq<Text>) {
    forall i, j :: 0 <= i < j < |ts| ==> ts[i].pos < ts[j].pos
  }

  /** `ts` reports, in file order, exactly the runs of `acc` of at least `lim` bytes. */
  ghost predicate Reports(b: seq<byte>, acc: seq<bool>, enc: Encoding, lim: nat, ts: seq<Text>)
    requires |acc| == |b|
  {
    && Sorted(ts)
    && (forall t :: t in ts <==> IsText(b, acc, enc, lim, t))
  }

  /** The last `n` positions before `pos` are accepted, and the one before them is not. */
  ghost predicate IsTail(acc: seq<bool>, pos: nat, n: nat) {
    && n <= pos <= |acc|
    && (forall k :: pos - n <= k < pos ==> acc[k])
    && (n == pos || !acc[pos - n - 1])
  }

  /** The file with the text `t` replaced by `s`. */
  function Spliced(file: seq<byte>, t: Text, s: seq<byte>): seq<byte>
    requires t.End() <= |file|
  {
    file[..t.pos] + s + file[t.End()..]
  }

  /** In a sorted list a position determines the text. */
  lemma SamePos(ts: seq<Text>, t: Text, u: Text)
    requires Sorted(ts) && t in ts && u in ts
    ensures t.pos == u.pos ==> t == u
  {
    var i :| 0 <= i < |ts| && ts[i] == t;
    var j :| 0 <= j < |ts| && ts[j] == u;
    assert i < j || i == j || j < i;
  }

  lemma RunEndingAt(acc: seq<bool>, pos: nat, n: nat, p: nat, m: nat)
    requires IsTail(acc, pos, n) && IsRun(acc, p, m) && p + m == pos
    ensures m == n
  {
  }

  /** Two runs of the same file are equal or separated by at least one byte. */
  lemma RunsApart(acc: seq<bool>, p: nat, n: nat, q: nat, m: nat)
    requires IsRun(acc, p, n) && IsRun(acc, q, m)
    ensures p == q ==> n == m
    ensures p < q ==> p + n < q
  {
  }

  lemma {:induction false} LeftEnd(acc: seq<bool>, k: nat) returns (p: nat)
    requires k < |acc| && acc[k]
    ensures p <= k && (p == 0 || !acc[p - 1])
    ensures forall i :: p <= i <= k ==> acc[i]
  {
    if k == 0 || !acc[k - 1] {
      p := k;
    } else {
      p := LeftEnd(acc, k - 1);
    }
  }

  lemma {:induction false} RightEnd(acc: seq<bool>, k: nat) returns (e: nat)
    requires k < |acc| && acc[k]
    ensures k < e <= |acc| && (e == |acc| || !acc[e])
    ensures forall i :: k <= i < e ==> acc[i]
    decreases |acc| - k
  {
    if k + 1 == |acc| || !acc[k + 1] {
      e := k + 1;
    } else {
      e := RightEnd(acc, k + 1);
    }
  }

  /** Every accepted position lies in a run. */
  lemma RunAround(acc: seq<bool>, k: nat) returns (p: nat, n: nat)
    requires k < |acc| && acc[k]
    ensures IsRun(acc, p, n) && p <= k < p + n
  {
    p := LeftEnd(acc, k);
    var e := RightEnd(acc, k);
    n := e - p;
    forall i | p <= i < p + n ensures acc[i] {
      assert i <= k || k <= i;
    }
  }

  /** A sorted list is determined by its elements. */
  lemma {:induction false} SortedUnique(xs: seq<Text>, ys: seq<Text>)
    requires Sorted(xs) && Sorted(ys)
    requires forall t :: t in xs <==> t in ys
    ensures xs == ys
    decreases |xs|
  {
    if ys != [] {
      assert ys[0] in ys;
      assert ys[0] in xs;
    }
    if xs != [] {
      assert xs[0] in ys;
      assert ys[0] in xs;
      assert xs[0] == ys[0];
      forall t ensures t in xs[1..] <==> t in ys[1..] {
        if t in xs[1..] {
          assert t in ys;
        }
        if t in ys[1..] {
          assert t in xs;
        }
      }
      SortedUnique(xs[1..], ys[1..]);
      assert xs == [xs[0]] + xs[1..];
      assert ys == [ys[0]] + ys[1..];
    }
  }

  /** So the report of a file is unique. */
  lemma ReportsUnique(b: seq<byte>, acc: seq<bool>, enc: Encoding, lim: nat, xs: seq<Text>, ys: seq<Text>)
    requires |acc| == |b|
    requires Reports(b, acc, enc, lim, xs) && Reports(b, acc, enc, lim, ys)
    ensures xs == ys
  {
    SortedUnique(xs, ys);
  }

  /** Reported texts are non-empty, lie inside the file and do not touch each other. */
  lemma ReportsApart(b: seq<byte>, acc: seq<bool>, enc: Encoding, lim: nat, ts: seq<Text>)
    requires |acc| == |b| && Reports(b, acc, enc, lim, ts)
    ensures forall i :: 0 <= i < |ts| ==> 0 < ts[i].len && ts[i].End() <= |b|
    ensures forall i, j :: 0 <= i < j < |ts| ==> ts[i].End() < ts[j].pos
  {
    forall i | 0 <= i < |ts| ensures 0 < ts[i].len && ts[i].End() <= |b| {
      assert ts[i] in ts;
    }
    forall i, j | 0 <= i < j < |ts| ensures ts[i].End() < ts[j].pos {
      assert ts[i] in ts && ts[j] in ts;
      RunsApart(acc, ts[i].pos, ts[i].len, ts[j].pos, ts[j].len);
    }
  }

  /** `ts` reports the runs that end before `pos`, that is, whose end has been read. */
  ghost predicate ReportsBefore(b: seq<byte>, acc: seq<bool>, enc: Encoding, lim: nat, ts: seq<Text>, pos: nat)
    requires |acc| == |b|
  {
    && Sorted(ts)
    && (forall t :: t in ts <==> IsText(b, acc, enc, lim, t) && t.End() < pos)
  }

  /** A digester's reporting step: at a position that is not accepted, or at the end of the
      file, the runs ended so far are the earlier ones and the tail, if it is long enough. */
  lemma ReportStep(b: seq<byte>, acc: seq<bool>, enc: Encoding, lim: nat, ts: seq<Text>, pos: nat, n: nat)
    returns (next: seq<Text>)
    requires |acc| == |b| && 0 < lim
    requires ReportsBefore(b, acc, enc, lim, ts, pos) && IsTail(acc, pos, n)
    requires pos == |b| || !acc[pos]
    ensures next == if lim <= n
                    then ts + [Text(enc, pos - n, n, pos == |b| || IsTerminator(b[pos]))]
                    else ts
    ensures ReportsBefore(b, acc, enc, lim, next, pos + 1)
  {
    var found := Text(enc, pos - n, n, pos == |b| || IsTerminator(b[pos]));
    next := if lim <= n then ts + [found] else ts;
    forall t | IsText(b, acc, enc, lim, t) && t.End() == pos ensures lim <= n && t == found {
      RunEndingAt(acc, pos, n, t.pos, t.len);
    }
    if lim <= n {
      assert IsText(b, acc, enc, lim, found);
      forall i | 0 <= i < |ts| ensures ts[i].pos < found.pos {
        assert ts[i] in ts;
        RunsApart(acc, found.pos, found.len, ts[i].pos, ts[i].len);
      }
      forall t ensures t in next <==> IsText(b, acc, enc, lim, t) && t.End() < pos + 1 {
        assert t in next <==> t in ts || t == found;
      }
    }
  }
}
