/** Rescanning a file in which one ASCII text has been replaced. */
module Rescan {
  import opened Bytes
  import opened Records
  import opened Segments
  import opened Digesters

  /** `l` ends, and `r` starts, with a byte that is not accepted, if they have bytes. */
  ghost predicate Closed(l: seq<bool>, r: seq<bool>) {
    && (l == [] || !l[|l| - 1])
    && (r == [] || !r[0])
  }

  /** A run that starts in the left part lies in it. */
  lemma RunLeft(l: seq<bool>, rest: seq<bool>, p: nat, n: nat)
    requires l == [] || !l[|l| - 1]
    requires p < |l|
    ensures IsRun(l + rest, p, n) <==> IsRun(l, p, n)
    ensures IsRun(l, p, n) ==> p + n < |l|
  {
    var acc := l + rest;
    assert forall k :: 0 <= k < |l| ==> acc[k] == l[k];
    assert forall k :: 0 <= k < |l| ==> l[k] == acc[k];
    assert !acc[|l| - 1];
  }

  /** A run that starts in the right part is a run of it. */
  lemma RunRight(pre: seq<bool>, r: seq<bool>, p: nat, n: nat)
    requires r == [] || !r[0]
    requires |pre| <= p
    ensures IsRun(pre + r, p, n) <==> IsRun(r, p - |pre|, n)
  {
    var acc, c := pre + r, |pre|;
    assert forall k :: c <= k < |acc| ==> acc[k] == r[k - c];
    assert forall k :: 0 <= k < |r| ==> r[k] == acc[c + k];
    if IsRun(acc, p, n) {
      assert p > c ==> acc[p - 1] == r[p - 1 - c];
    }
  }

  /** A run that starts in a uniform middle part is that part. */
  lemma RunMiddle(l: seq<bool>, m: seq<bool>, r: seq<bool>, p: nat, n: nat)
    requires Closed(l, r) && |l| <= p < |l| + |m|
    requires (forall k :: 0 <= k < |m| ==> m[k]) || (forall k :: 0 <= k < |m| ==> !m[k])
    ensures IsRun(l + m + r, p, n) <==> m[0] && p == |l| && n == |m|
  {
    var acc, c := l + m + r, |l| + |m|;
    assert forall k :: |l| <= k < c ==> acc[k] == m[k - |l|];
    assert r != [] ==> acc[c] == r[0];
    assert l != [] ==> acc[|l| - 1] == l[|l| - 1];
    assert acc[p] == m[p - |l|];
    if IsRun(acc, p, n) {
      assert m[0];
      assert p == |l|;
      assert n <= |m|;
    }
  }

  lemma AsciiAcceptedOfParts(l: seq<byte>, m: seq<byte>, r: seq<byte>)
    ensures AsciiAccepted(l + m + r) == AsciiAccepted(l) + AsciiAccepted(m) + AsciiAccepted(r)
  {
  }

  /** `m` is a run of ASCII text bytes, or of other bytes, between bytes that are not. */
  ghost predicate Cut(l: seq<byte>, m: seq<byte>, r: seq<byte>) {
    && (l == [] || !IsAsciiText(l[|l| - 1]))
    && (r == [] || !IsAsciiText(r[0]))
    && ((forall c :: c in m ==> IsAsciiText(c)) || (forall c :: c in m ==> !IsAsciiText(c)))
  }

  ghost function MiddleText(l: seq<byte>, m: seq<byte>, r: seq<byte>): Text {
    Text(Ascii, |l|, |m|, r == [] || IsTerminator(r[0]))
  }

  /** An ASCII text of the whole file. */
  ghost predicate IsAscii(b: seq<byte>, lim: nat, t: Text) {
    IsText(b, AsciiAccepted(b), Ascii, lim, t)
  }

  function Moved(t: Text, shift: int): Text
    requires 0 <= t.pos + shift
  {
    t.(pos := t.pos + shift)
  }

  /** The texts of a file that is cut at `m`, by the part they start in. */
  lemma TextsLeft(l: seq<byte>, rest: seq<byte>, lim: nat, t: Text)
    requires l == [] || !IsAsciiText(l[|l| - 1])
    requires t.pos < |l|
    ensures IsAscii(l + rest, lim, t) <==> IsAscii(l, lim, t)
  {
    assert AsciiAccepted(l + rest) == AsciiAccepted(l) + AsciiAccepted(rest);
    RunLeft(AsciiAccepted(l), AsciiAccepted(rest), t.pos, t.len);
    if t.End() < |l| {
      assert (l + rest)[t.End()] == l[t.End()];
    }
  }

  lemma TextsRight(pre: seq<byte>, r: seq<byte>, lim: nat, t: Text)
    requires r == [] || !IsAsciiText(r[0])
    requires |pre| <= t.pos
    ensures IsAscii(pre + r, lim, t) <==> IsAscii(r, lim, Moved(t, -|pre|))
  {
    assert AsciiAccepted(pre + r) == AsciiAccepted(pre) + AsciiAccepted(r);
    RunRight(AsciiAccepted(pre), AsciiAccepted(r), t.pos, t.len);
    if t.End() < |pre + r| {
      assert (pre + r)[t.End()] == r[t.End() - |pre|];
    }
  }

  lemma TextsMiddle(l: seq<byte>, m: seq<byte>, r: seq<byte>, lim: nat, t: Text)
    requires 0 < lim && Cut(l, m, r) && |l| <= t.pos < |l| + |m|
    ensures IsAscii(l + m + r, lim, t) <==> lim <= |m| && IsAsciiText(m[0]) && t == MiddleText(l, m, r)
  {
    var am := AsciiAccepted(m);
    AsciiAcceptedOfParts(l, m, r);
    assert forall k :: 0 <= k < |m| ==> am[k] == IsAsciiText(m[k]) && m[k] in m;
    RunMiddle(AsciiAccepted(l), am, AsciiAccepted(r), t.pos, t.len);
    assert r != [] ==> (l + m + r)[|l| + |m|] == r[0];
  }

  /** The bytes around a reported ASCII text are not ASCII text bytes. */
  lemma TextIsCut(b: seq<byte>, lim: nat, t: Text, m: seq<byte>)
    requires 0 < lim && IsAscii(b, lim, t)
    requires (forall c :: c in m ==> IsAsciiText(c)) || (forall c :: c in m ==> !IsAsciiText(c))
    ensures Cut(b[..t.pos], m, b[t.End()..]) && Cut(b[..t.pos], b[t.pos..t.End()], b[t.End()..])
    ensures IsAsciiText(b[t.pos]) && t == MiddleText(b[..t.pos], b[t.pos..t.End()], b[t.End()..])
  {
    var acc := AsciiAccepted(b);
    assert t.pos > 0 ==> !acc[t.pos - 1];
    assert t.End() < |b| ==> !acc[t.End()];
    assert forall k :: t.pos <= k < t.End() ==> acc[k] == IsAsciiText(b[k]);
  }

  function MovedAll(ts: seq<Text>, shift: int): seq<Text>
    requires forall t :: t in ts ==> 0 <= t.pos + shift
  {
    seq(|ts|, i requires 0 <= i < |ts| => Moved(ts[i], shift))
  }

  /** The old list with `mid` in place of its `j`-th text, and the later texts moved. */
  function Rescanned(ts: seq<Text>, j: nat, mid: seq<Text>, shift: int): seq<Text>
    requires j < |ts|
    requires forall t :: t in ts[j + 1..] ==> 0 <= t.pos + shift
  {
    ts[..j] + mid + MovedAll(ts[j + 1..], shift)
  }

  lemma SplitAt(ts: seq<Text>, j: nat)
    requires Sorted(ts) && j < |ts|
    ensures forall t :: t in ts[..j] <==> t in ts && t.pos < ts[j].pos
    ensures forall t :: t in ts[j + 1..] <==> t in ts && ts[j].pos < t.pos
    ensures forall t :: t in ts && t.pos == ts[j].pos ==> t == ts[j]
  {
    var u := ts[j];
    forall t | t in ts
      ensures t in ts[..j] <==> t.pos < u.pos
      ensures t in ts[j + 1..] <==> u.pos < t.pos
      ensures t.pos == u.pos ==> t == u
    {
      var i :| 0 <= i < |ts| && ts[i] == t;
      if i < j {
        assert ts[..j][i] == t;
      } else if j < i {
        assert ts[j + 1..][i - j - 1] == t;
      }
    }
  }

  lemma InMovedAll(ts: seq<Text>, shift: int, t: Text)
    requires forall u :: u in ts ==> 0 <= u.pos + shift
    ensures t in MovedAll(ts, shift) <==> 0 <= t.pos - shift && Moved(t, -shift) in ts
  {
    var moved := MovedAll(ts, shift);
    if t in moved {
      var i :| 0 <= i < |moved| && moved[i] == t;
      assert t == Moved(ts[i], shift);
      assert Moved(t, -shift) == ts[i];
    }
    if 0 <= t.pos - shift && Moved(t, -shift) in ts {
      var i :| 0 <= i < |ts| && ts[i] == Moved(t, -shift);
      assert moved[i] == t;
    }
  }

  lemma InRescanned(ts: seq<Text>, j: nat, mid: seq<Text>, shift: int, t: Text)
    requires Sorted(ts) && j < |ts|
    requires forall u :: u in ts[j + 1..] ==> 0 <= u.pos + shift
    ensures t in Rescanned(ts, j, mid, shift) <==>
            || (t in ts && t.pos < ts[j].pos)
            || t in mid
            || (0 <= t.pos - shift && ts[j].pos < t.pos - shift && Moved(t, -shift) in ts)
  {
    SplitAt(ts, j);
    InMovedAll(ts[j + 1..], shift, t);
  }

  lemma RescannedSorted(ts: seq<Text>, j: nat, mid: seq<Text>, shift: int)
    requires Sorted(ts) && j < |ts|
    requires forall u :: u in ts[j + 1..] ==> ts[j].pos < u.pos + shift
    requires |mid| <= 1 && (mid != [] ==> mid[0].pos == ts[j].pos)
    ensures Sorted(Rescanned(ts, j, mid, shift))
  {
    var rest := MovedAll(ts[j + 1..], shift);
    forall i | 0 <= i < |rest| ensures rest[i].pos == ts[j + 1 + i].pos + shift && ts[j].pos < rest[i].pos {
      assert ts[j + 1..][i] == ts[j + 1 + i];
      assert ts[j + 1 + i] in ts[j + 1..];
    }
    assert Sorted(rest) && Sorted(mid);
  }

  /** Replacing a reported text by uniform bytes changes the report at that text only. */
  lemma RescanAfterSplice(b: seq<byte>, lim: nat, ts: seq<Text>, j: nat, m: seq<byte>, after: seq<Text>)
    requires 0 < lim && AsciiReport(b, lim, ts) && j < |ts|
    requires (forall c :: c in m ==> IsAsciiText(c)) || (forall c :: c in m ==> !IsAsciiText(c))
    requires ts[j].End() <= |b| && AsciiReport(Spliced(b, ts[j], m), lim, after)
    ensures forall t :: t in ts[j + 1..] ==> 0 <= t.pos + (|m| - ts[j].len)
    ensures after == Rescanned(ts, j, Middle(ts[j], m, lim), |m| - ts[j].len)
  {
    LaterApart(b, lim, ts, ts[j]);
    SplitAt(ts, j);
    AfterByPosition(b, lim, ts, j, m, after);
    Assemble(ts, j, Middle(ts[j], m, lim), |m|, after);
  }

  /** What is found in place of the text `u`. */
  function Middle(u: Text, m: seq<byte>, lim: nat): seq<Text> {
    if lim <= |m| && m != [] && IsAsciiText(m[0]) then [u.(len := |m|)] else []
  }

  lemma AfterByPosition(b: seq<byte>, lim: nat, ts: seq<Text>, j: nat, m: seq<byte>, after: seq<Text>)
    requires 0 < lim && AsciiReport(b, lim, ts) && j < |ts|
    requires (forall c :: c in m ==> IsAsciiText(c)) || (forall c :: c in m ==> !IsAsciiText(c))
    requires ts[j].End() <= |b| && AsciiReport(Spliced(b, ts[j], m), lim, after)
    ensures forall t :: t in after <==> ByPosition(ts, j, Middle(ts[j], m, lim), |m|, t)
  {
    forall t ensures t in after <==> ByPosition(ts, j, Middle(ts[j], m, lim), |m|, t) {
      assert t in after <==> IsAscii(Spliced(b, ts[j], m), lim, t);
      assert ts[j] in ts;
      if t.pos < ts[j].pos {
        SpliceBefore(b, lim, ts, ts[j], m, t);
      } else if t.pos < ts[j].pos + |m| {
        SpliceMiddle(b, lim, ts[j], m, t);
      } else {
        SpliceBehind(b, lim, ts, ts[j], m, t);
      }
    }
  }

  /** The rescanned list, read off by position. */
  ghost predicate ByPosition(ts: seq<Text>, j: nat, mid: seq<Text>, n: nat, t: Text)
    requires j < |ts|
  {
    if t.pos < ts[j].pos then t in ts
    else if t.pos < ts[j].pos + n then t in mid
    else 0 <= t.pos + ts[j].len - n && Moved(t, ts[j].len - n) in ts
  }

  lemma Assemble(ts: seq<Text>, j: nat, mid: seq<Text>, n: nat, after: seq<Text>)
    requires Sorted(ts) && j < |ts| && Sorted(after) && 0 < ts[j].len
    requires mid == [] || (mid == [ts[j].(len := n)] && 0 < n)
    requires forall u :: u in ts[j + 1..] ==> ts[j].pos < u.pos + (n - ts[j].len)
    requires forall v :: v in ts && ts[j].pos < v.pos ==> ts[j].End() < v.pos
    requires forall t :: t in after <==> ByPosition(ts, j, mid, n, t)
    ensures after == Rescanned(ts, j, mid, n - ts[j].len)
  {
    var u, d := ts[j], n - ts[j].len;
    RescannedSorted(ts, j, mid, d);
    var want := Rescanned(ts, j, mid, d);
    forall t ensures t in want <==> t in after {
      InRescanned(ts, j, mid, d, t);
      if t.pos >= u.pos + n && 0 <= t.pos - d && Moved(t, -d) in ts {
        SamePos(ts, u, Moved(t, -d));
      }
    }
    SortedUnique(want, after);
  }

  lemma LaterApart(b: seq<byte>, lim: nat, ts: seq<Text>, u: Text)
    requires AsciiReport(b, lim, ts) && u in ts
    ensures 0 < u.len && forall t :: t in ts && u.pos < t.pos ==> u.End() < t.pos
  {
    forall t | t in ts && u.pos < t.pos ensures u.End() < t.pos {
      RunsApart(AsciiAccepted(b), u.pos, u.len, t.pos, t.len);
    }
  }

  lemma AllAsciiText(b: seq<byte>, lim: nat, u: Text)
    requires IsAscii(b, lim, u)
    ensures forall c :: c in b[u.pos..u.End()] ==> IsAsciiText(c)
  {
    var acc := AsciiAccepted(b);
    forall c | c in b[u.pos..u.End()] ensures IsAsciiText(c) {
      var k :| u.pos <= k < u.End() && b[k] == c;
      assert acc[k];
    }
  }

  /** The texts after the replacement: before it, in it and behind it. */
  lemma SpliceBefore(b: seq<byte>, lim: nat, ts: seq<Text>, u: Text, m: seq<byte>, t: Text)
    requires 0 < lim && AsciiReport(b, lim, ts) && u in ts && u.End() <= |b| && t.pos < u.pos
    ensures IsAscii(Spliced(b, u, m), lim, t) <==> t in ts
  {
    var l, r := b[..u.pos], b[u.End()..];
    TextIsCut(b, lim, u, []);
    assert Spliced(b, u, m) == l + (m + r) && b == l + b[u.pos..];
    TextsLeft(l, m + r, lim, t);
    TextsLeft(l, b[u.pos..], lim, t);
    assert t in ts <==> IsAscii(b, lim, t);
  }

  lemma SpliceMiddle(b: seq<byte>, lim: nat, u: Text, m: seq<byte>, t: Text)
    requires 0 < lim && IsAscii(b, lim, u) && u.pos <= t.pos < u.pos + |m|
    requires (forall c :: c in m ==> IsAsciiText(c)) || (forall c :: c in m ==> !IsAsciiText(c))
    ensures IsAscii(Spliced(b, u, m), lim, t) <==> lim <= |m| && IsAsciiText(m[0]) && t == u.(len := |m|)
  {
    TextIsCut(b, lim, u, m);
    TextsMiddle(b[..u.pos], m, b[u.End()..], lim, t);
  }

  lemma SpliceBehind(b: seq<byte>, lim: nat, ts: seq<Text>, u: Text, m: seq<byte>, t: Text)
    requires 0 < lim && AsciiReport(b, lim, ts) && u in ts && u.End() <= |b| && u.pos + |m| <= t.pos
    ensures IsAscii(Spliced(b, u, m), lim, t) <==> Moved(t, u.len - |m|) in ts
  {
    var r := b[u.End()..];
    TextIsCut(b, lim, u, []);
    var v := Moved(t, u.len - |m|);
    var pre, post := b[..u.End()], b[..u.pos] + m;
    assert Spliced(b, u, m) == post + r && b == pre + r;
    TextsRight(post, r, lim, t);
    TextsRight(pre, r, lim, v);
    assert Moved(t, -|post|) == Moved(v, -|pre|);
    assert v in ts <==> IsAscii(b, lim, v);
  }
}
