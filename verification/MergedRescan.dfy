/** Rescanning a file in which one ASCII text has been replaced by ASCII text bytes: the list
    that is left after the merge, which holds the UTF-8 texts, too. */
module MergedRescan {
  import opened Bytes
  import opened Records
  import opened Segments
  import opened Digesters
  import opened Minimize
  import opened ScanStrings
  import opened Fillers
  import opened Rescan

  /** `u` is an "ascii" text of the merged list, and `m` may take its place. */
  ghost predicate IsSwap(b: seq<byte>, lim: nat, u: Text, m: seq<byte>) {
    IsFileText(b, lim, u) && u.enc.Ascii? && forall c :: c in m ==> IsAsciiText(c)
  }

  lemma AcceptsBefore(b: seq<byte>, c: seq<byte>, n: nat, k: nat)
    requires k < n <= |b| && n <= |c| && b[..n] == c[..n]
    ensures Accepts(b, k) == Accepts(c, k)
  {
    AcceptsPrefix(b[..n], b[n..], k);
    AcceptsPrefix(c[..n], c[n..], k);
    assert b == b[..n] + b[n..] && c == c[..n] + c[n..];
  }

  /** The byte that ended the text is rejected after the replacement, even if that is empty. */
  lemma EndStaysRejected(b: seq<byte>, lim: nat, u: Text, m: seq<byte>)
    requires IsSwap(b, lim, u, m) && u.End() < |b|
    ensures !Accepts(b, u.End()) && !Accepts(Spliced(b, u, m), u.pos + |m|)
  {
    var acc, b' := Utf8Accepted(b), Spliced(b, u, m);
    assert !acc[u.End()] && acc[u.End() - 1];
    assert IsAsciiText(b[u.End() - 1]);
    assert b'[u.pos + |m|] == b[u.End()];
    if m == [] {
      if u.pos > 0 {
        assert !acc[u.pos - 1];
        assert b[..u.pos] == b'[..u.pos];
        AcceptsBefore(b, b', u.pos, u.pos - 1);
      }
    } else {
      assert b'[u.pos + |m| - 1] == m[|m| - 1] && m[|m| - 1] in m;
    }
  }

  /** Behind the text every byte is decided as before. */
  lemma {:induction false} AcceptsBehind(b: seq<byte>, lim: nat, u: Text, m: seq<byte>, k: nat)
    requires IsSwap(b, lim, u, m) && u.End() <= k < |b|
    ensures Accepts(Spliced(b, u, m), k - u.len + |m|) == Accepts(b, k)
  {
    var b' := Spliced(b, u, m);
    if k == u.End() {
      EndStaysRejected(b, lim, u, m);
    } else {
      AcceptsBehind(b, lim, u, m, k - 1);
      assert b'[k - u.len + |m|] == b[k] && b'[k - 1 - u.len + |m|] == b[k - 1];
    }
  }

  ghost function AllTrue(n: nat): seq<bool> {
    seq(n, _ => true)
  }

  /** What the UTF-8 digester accepts, in parts. */
  lemma AcceptedParts(b: seq<byte>, lim: nat, u: Text, m: seq<byte>)
    requires IsSwap(b, lim, u, m)
    ensures var acc := Utf8Accepted(b);
            Utf8Accepted(Spliced(b, u, m)) == acc[..u.pos] + AllTrue(|m|) + acc[u.End()..]
  {
    var acc, b' := Utf8Accepted(b), Spliced(b, u, m);
    var acc', parts := Utf8Accepted(b'), acc[..u.pos] + AllTrue(|m|) + acc[u.End()..];
    forall k | 0 <= k < |acc'| ensures acc'[k] == parts[k] {
      if k < u.pos {
        assert b[..u.pos] == b'[..u.pos];
        AcceptsBefore(b, b', u.pos, k);
      } else if k < u.pos + |m| {
        assert b'[k] == m[k - u.pos] && m[k - u.pos] in m;
      } else {
        AcceptsBehind(b, lim, u, m, k - |m| + u.len);
      }
    }
  }

  lemma TextIsClosed(b: seq<byte>, lim: nat, u: Text)
    requires IsFileText(b, lim, u)
    ensures var acc := Utf8Accepted(b);
            && Closed(acc[..u.pos], acc[u.End()..])
            && acc == acc[..u.pos] + AllTrue(u.len) + acc[u.End()..]
  {
  }

  /** The runs around a full middle part, by the part they start in, do not depend on its
      length. */
  lemma RunsBefore(l: seq<bool>, a: nat, c: nat, r: seq<bool>, p: nat, n: nat)
    requires Closed(l, r) && p < |l|
    ensures IsRun(l + AllTrue(c) + r, p, n) <==> IsRun(l + AllTrue(a) + r, p, n)
    ensures IsRun(l + AllTrue(c) + r, p, n) ==> p + n < |l|
  {
    RunLeft(l, AllTrue(a) + r, p, n);
    RunLeft(l, AllTrue(c) + r, p, n);
    assert l + AllTrue(a) + r == l + (AllTrue(a) + r);
    assert l + AllTrue(c) + r == l + (AllTrue(c) + r);
  }

  lemma RunsBehind(l: seq<bool>, a: nat, c: nat, r: seq<bool>, p: nat, n: nat)
    requires Closed(l, r) && |l| + c <= p
    ensures IsRun(l + AllTrue(c) + r, p, n) <==> IsRun(l + AllTrue(a) + r, p + a - c, n)
  {
    RunRight(l + AllTrue(a), r, p + a - c, n);
    RunRight(l + AllTrue(c), r, p, n);
  }

  /** The runs of the file after the replacement. */
  ghost predicate RunsAs(acc: seq<bool>, acc': seq<bool>, u: Text, c: nat, p: nat, n: nat) {
    if p < u.pos then (IsRun(acc', p, n) <==> IsRun(acc, p, n)) && (IsRun(acc', p, n) ==> p + n < u.pos)
    else if p < u.pos + c then IsRun(acc', p, n) <==> p == u.pos && n == c
    else IsRun(acc', p, n) <==> IsRun(acc, p + u.len - c, n)
  }

  lemma RunsInParts(l: seq<bool>, r: seq<bool>, u: Text, c: nat, p: nat, n: nat)
    requires Closed(l, r) && |l| == u.pos
    ensures RunsAs(l + AllTrue(u.len) + r, l + AllTrue(c) + r, u, c, p, n)
  {
    if p < u.pos {
      RunsBefore(l, u.len, c, r, p, n);
    } else if p < u.pos + c {
      RunMiddle(l, AllTrue(c), r, p, n);
    } else {
      RunsBehind(l, u.len, c, r, p, n);
    }
  }

  lemma RunsAfter(b: seq<byte>, lim: nat, u: Text, m: seq<byte>, p: nat, n: nat)
    requires IsSwap(b, lim, u, m)
    ensures RunsAs(Utf8Accepted(b), Utf8Accepted(Spliced(b, u, m)), u, |m|, p, n)
  {
    var acc := Utf8Accepted(b);
    AcceptedParts(b, lim, u, m);
    TextIsClosed(b, lim, u);
    RunsInParts(acc[..u.pos], acc[u.End()..], u, |m|, p, n);
  }

  lemma AsciiCarries(b: seq<byte>, v: Text, c: seq<byte>, t: Text)
    requires v.len == t.len && v.End() <= |b| && t.End() <= |c|
    requires b[v.pos..v.End()] == c[t.pos..t.End()] && AllAscii(b, v)
    ensures AllAscii(c, t)
  {
    forall k | t.pos <= k < t.End() ensures IsAsciiText(c[k]) {
      assert c[k] == c[t.pos..t.End()][k - t.pos] == b[v.pos..v.End()][k - t.pos] == b[k - t.pos + v.pos];
    }
  }

  /** Texts of equal bytes with equal bytes after them are both texts of their files, or both
      are not. */
  lemma SameText(b: seq<byte>, c: seq<byte>, lim: nat, v: Text, t: Text)
    requires v == t.(pos := v.pos)
    requires IsRun(Utf8Accepted(b), v.pos, v.len) <==> IsRun(Utf8Accepted(c), t.pos, t.len)
    requires v.End() <= |b| <==> t.End() <= |c|
    requires v.End() <= |b| ==> b[v.pos..v.End()] == c[t.pos..t.End()]
    requires v.End() < |b| <==> t.End() < |c|
    requires v.End() < |b| ==> b[v.End()] == c[t.End()]
    ensures IsFileText(b, lim, v) <==> IsFileText(c, lim, t)
  {
    if v.End() <= |b| && AllAscii(b, v) {
      AsciiCarries(b, v, c, t);
    }
    if t.End() <= |c| && AllAscii(c, t) {
      AsciiCarries(c, t, b, v);
    }
  }

  lemma SwapBefore(b: seq<byte>, lim: nat, u: Text, m: seq<byte>, t: Text)
    requires IsSwap(b, lim, u, m) && t.pos < u.pos
    ensures IsFileText(Spliced(b, u, m), lim, t) <==> IsFileText(b, lim, t)
  {
    var b' := Spliced(b, u, m);
    RunsAfter(b, lim, u, m, t.pos, t.len);
    if t.End() < u.pos {
      assert b[..u.pos] == b'[..u.pos];
      assert b[t.pos..t.End()] == b[..u.pos][t.pos..t.End()] && b'[t.pos..t.End()] == b'[..u.pos][t.pos..t.End()];
      assert b[t.End()] == b[..u.pos][t.End()] && b'[t.End()] == b'[..u.pos][t.End()];
      SameText(b, b', lim, t, t);
    }
  }

  lemma SwapMiddle(b: seq<byte>, lim: nat, u: Text, m: seq<byte>, t: Text)
    requires 0 < lim && IsSwap(b, lim, u, m) && u.pos <= t.pos < u.pos + |m|
    ensures IsFileText(Spliced(b, u, m), lim, t) <==> lim <= |m| && t == u.(len := |m|)
  {
    var b' := Spliced(b, u, m);
    RunsAfter(b, lim, u, m, t.pos, t.len);
    assert u.End() < |b| ==> b'[u.pos + |m|] == b[u.End()];
    if t.pos == u.pos && t.len == |m| {
      forall k | t.pos <= k < t.End() ensures IsAsciiText(b'[k]) {
        assert b'[k] == m[k - u.pos] && m[k - u.pos] in m;
      }
    }
  }

  lemma SwapBehind(b: seq<byte>, lim: nat, u: Text, m: seq<byte>, t: Text)
    requires IsSwap(b, lim, u, m) && u.pos + |m| <= t.pos
    ensures IsFileText(Spliced(b, u, m), lim, t) <==> IsFileText(b, lim, Moved(t, u.len - |m|))
  {
    var b', v := Spliced(b, u, m), Moved(t, u.len - |m|);
    RunsAfter(b, lim, u, m, t.pos, t.len);
    if v.End() <= |b| {
      BytesBehind(b, u, m, v, t);
    }
    SameText(b, b', lim, v, t);
  }

  lemma BytesBehind(b: seq<byte>, u: Text, m: seq<byte>, v: Text, t: Text)
    requires u.pos + |m| <= t.pos && v == Moved(t, u.len - |m|) && v.End() <= |b|
    ensures t.End() <= |Spliced(b, u, m)|
    ensures Spliced(b, u, m)[t.pos..t.End()] == b[v.pos..v.End()]
    ensures v.End() < |b| ==> Spliced(b, u, m)[t.End()] == b[v.End()]
  {
    var pre, r := b[..u.pos] + m, b[u.End()..];
    var p, e := v.pos - u.End(), v.End() - u.End();
    assert Spliced(b, u, m) == pre + r;
    assert (pre + r)[|pre| + p..|pre| + e] == r[p..e];
    assert b[v.pos..v.End()] == r[p..e];
  }

  /** The text with its new length, if that is long enough. */
  function Resized(u: Text, n: nat, lim: nat): seq<Text> {
    if lim <= n then [u.(len := n)] else []
  }

  lemma SwapByPosition(b: seq<byte>, lim: nat, ts: seq<Text>, j: nat, m: seq<byte>, t: Text)
    requires 0 < lim && FileTexts(b, lim, ts) && j < |ts| && IsSwap(b, lim, ts[j], m)
    ensures IsFileText(Spliced(b, ts[j], m), lim, t) <==>
            ByPosition(ts, j, Resized(ts[j], |m|, lim), |m|, t)
  {
    var u := ts[j];
    if t.pos < u.pos {
      SwapBefore(b, lim, u, m, t);
    } else if t.pos < u.pos + |m| {
      SwapMiddle(b, lim, u, m, t);
    } else {
      SwapBehind(b, lim, u, m, t);
    }
  }

  lemma LaterTextsApart(b: seq<byte>, lim: nat, ts: seq<Text>, u: Text)
    requires FileTexts(b, lim, ts) && u in ts
    ensures Sorted(ts) && 0 < u.len
    ensures forall t :: t in ts && u.pos < t.pos ==> u.End() < t.pos
  {
    forall t | t in ts && u.pos < t.pos ensures u.End() < t.pos {
      RunsApart(Utf8Accepted(b), u.pos, u.len, t.pos, t.len);
    }
  }

  lemma AfterSwap(b: seq<byte>, lim: nat, ts: seq<Text>, j: nat, m: seq<byte>, after: seq<Text>)
    requires 0 < lim && FileTexts(b, lim, ts) && j < |ts| && IsSwap(b, lim, ts[j], m)
    requires FileTexts(Spliced(b, ts[j], m), lim, after)
    ensures forall t :: t in after <==> ByPosition(ts, j, Resized(ts[j], |m|, lim), |m|, t)
  {
    forall t ensures t in after <==> ByPosition(ts, j, Resized(ts[j], |m|, lim), |m|, t) {
      SwapByPosition(b, lim, ts, j, m, t);
    }
  }

  lemma Reassembled(ts: seq<Text>, j: nat, n: nat, lim: nat, after: seq<Text>)
    requires 0 < lim && Sorted(ts) && j < |ts| && 0 < ts[j].len && Sorted(after)
    requires forall t :: t in ts && ts[j].pos < t.pos ==> ts[j].End() < t.pos
    requires forall t :: t in after <==> ByPosition(ts, j, Resized(ts[j], n, lim), n, t)
    ensures forall t :: t in ts[j + 1..] ==> 0 <= t.pos + (n - ts[j].len)
    ensures after == Rescanned(ts, j, Resized(ts[j], n, lim), n - ts[j].len)
  {
    SplitAt(ts, j);
    Assemble(ts, j, Resized(ts[j], n, lim), n, after);
  }

  /** The merged list of the file with the replacement: the old one with the text's new
      length, or without the text when that is below the limit, and the later texts moved. */
  lemma MergedAfterSplice(b: seq<byte>, lim: nat, ts: seq<Text>, j: nat, m: seq<byte>, after: seq<Text>)
    requires 0 < lim && FileTexts(b, lim, ts) && j < |ts| && ts[j].enc.Ascii?
    requires forall c :: c in m ==> IsAsciiText(c)
    requires ts[j].End() <= |b| && FileTexts(Spliced(b, ts[j], m), lim, after)
    ensures forall t :: t in ts[j + 1..] ==> 0 <= t.pos + (|m| - ts[j].len)
    ensures after == Rescanned(ts, j, Resized(ts[j], |m|, lim), |m| - ts[j].len)
  {
    assert ts[j] in ts;
    AfterSwap(b, lim, ts, j, m, after);
    LaterTextsApart(b, lim, ts, ts[j]);
    Reassembled(ts, j, |m|, lim, after);
  }
}
