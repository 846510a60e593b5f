/** Merging the digesters' lists, and the purity flags of the file. */
module Minimize {
  import opened Bytes
  import opened Records
  import opened Segments
  import opened Digesters

  ghost predicate AllAscii(b: seq<byte>, t: Text)
    requires t.End() <= |b|
  {
    forall k :: t.pos <= k < t.End() ==> IsAsciiText(b[k])
  }

  /** A UTF-8 text that consists of ASCII text bytes only is listed as an ASCII text. */
  ghost function Relabel(b: seq<byte>, u: Text): Text
    requires u.End() <= |b|
  {
    if AllAscii(b, u) then u.(enc := Ascii) else u
  }

  /** What the merged list of the file is: the UTF-8 digester's list, relabelled. */
  ghost function Minimized(b: seq<byte>, utfs: seq<Text>): seq<Text>
    requires forall u :: u in utfs ==> u.End() <= |b|
  {
    seq(|utfs|, i requires 0 <= i < |utfs| => Relabel(b, utfs[i]))
  }

  /** Wholly ASCII UTF-8 texts are exactly the texts both digesters found. */
  lemma AllAsciiIffBoth(b: seq<byte>, lim: nat, asciis: seq<Text>, utfs: seq<Text>, u: Text)
    requires AsciiReport(b, lim, asciis) && Utf8Report(b, lim, utfs) && u in utfs
    ensures AllAscii(b, u) <==> u.(enc := Ascii) in asciis
    ensures forall a :: a in asciis && a.pos == u.pos && a.len == u.len ==> a == u.(enc := Ascii)
  {
    var acc := Utf8Accepted(b);
    var aacc := AsciiAccepted(b);
    if AllAscii(b, u) {
      assert u.pos > 0 ==> acc[u.pos - 1] == Accepts(b, u.pos - 1);
      assert u.End() < |b| ==> acc[u.End()] == Accepts(b, u.End());
      assert IsRun(aacc, u.pos, u.len);
      assert IsText(b, aacc, Ascii, lim, u.(enc := Ascii));
    }
    if u.(enc := Ascii) in asciis {
      assert IsText(b, aacc, Ascii, lim, u.(enc := Ascii));
      forall k | u.pos <= k < u.End() ensures IsAsciiText(b[k]) {
        assert aacc[k];
      }
    }
  }

  /** An ASCII text that starts inside a UTF-8 text but is not all of it starts inside a
      text with a byte that is not ASCII. */
  lemma ProperPartIsMixed(b: seq<byte>, lim: nat, asciis: seq<Text>, utfs: seq<Text>, a: Text, u: Text)
    requires AsciiReport(b, lim, asciis) && Utf8Report(b, lim, utfs) && u in utfs && a in asciis
    requires u.pos <= a.pos < u.End() && !(a.pos == u.pos && a.len == u.len)
    ensures !AllAscii(b, u)
  {
    if AllAscii(b, u) {
      AllAsciiIffBoth(b, lim, asciis, utfs, u);
      RunsApart(AsciiAccepted(b), u.pos, u.len, a.pos, a.len);
      assert false;
    }
  }

  /** `found` is an arbitrary interleaving of the two digesters' lists and of entries of
      the other digester, which are labelled "unicode". */
  ghost predicate Interleaves(found: seq<Text>, asciis: seq<Text>, utfs: seq<Text>) {
    && (forall t :: t in found && t.enc.Ascii? <==> t in asciis)
    && (forall t :: t in found && t.enc.Utf8? <==> t in utfs)
  }

  /** Slot `p` holds the entry of this encoding and position among the first `n`, if any. */
  ghost predicate IsIndex(slots: seq<Option<Text>>, found: seq<Text>, n: nat, enc: Encoding)
    requires n <= |found|
  {
    && (forall p :: 0 <= p < |slots| && slots[p].Some? ==>
          slots[p].value in found[..n] && slots[p].value.enc == enc && slots[p].value.pos == p)
    && (forall t :: t in found[..n] && t.enc == enc ==> t.pos < |slots| && slots[t.pos] == Some(t))
  }

  /** Among the texts of one encoding a position determines the text. */
  ghost predicate OnePerPos(found: seq<Text>, enc: Encoding) {
    forall t, u :: t in found && u in found && t.enc == enc && u.enc == enc && t.pos == u.pos ==> t == u
  }

  lemma FoundOnePerPos(found: seq<Text>, enc: Encoding, ts: seq<Text>)
    requires Sorted(ts) && forall t :: t in found && t.enc == enc <==> t in ts
    ensures OnePerPos(found, enc)
  {
    forall t, u | t in found && u in found && t.enc == enc && u.enc == enc && t.pos == u.pos ensures t == u {
      SamePos(ts, t, u);
    }
  }

  lemma IndexStep(slots: seq<Option<Text>>, found: seq<Text>, n: nat, enc: Encoding)
    requires n < |found| && IsIndex(slots, found, n, enc) && OnePerPos(found, enc)
    requires found[n].enc == enc ==> found[n].pos < |slots|
    ensures IsIndex(if found[n].enc == enc then slots[found[n].pos := Some(found[n])] else slots, found, n + 1, enc)
  {
    var x := found[n];
    var slots' := if x.enc == enc then slots[x.pos := Some(x)] else slots;
    assert found[..n + 1] == found[..n] + [x];
    forall t | t in found[..n + 1] && t.enc == enc ensures t.pos < |slots'| && slots'[t.pos] == Some(t) {
      if t in found[..n] && x.enc == enc && t.pos == x.pos {
        assert t in found && x in found;
      }
    }
  }

  lemma IndexDone(slots: seq<Option<Text>>, found: seq<Text>, enc: Encoding, ts: seq<Text>)
    requires IsIndex(slots, found, |found|, enc)
    requires forall t :: t in found && t.enc == enc <==> t in ts
    ensures forall p, t :: 0 <= p < |slots| ==> (slots[p] == Some(t) <==> t in ts && t.pos == p)
  {
    assert found[..|found|] == found;
  }

  method IndexByPos(found: seq<Text>, size: nat, ghost asciis: seq<Text>, ghost utfs: seq<Text>)
    returns (aa: array<Option<Text>>, au: array<Option<Text>>)
    requires Interleaves(found, asciis, utfs)
    requires forall t :: t in asciis || t in utfs ==> t.pos < size
    requires Sorted(asciis) && Sorted(utfs)
    ensures fresh(aa) && fresh(au) && aa != au && aa.Length == au.Length == size
    ensures forall p, t :: 0 <= p < size ==> (aa[p] == Some(t) <==> t in asciis && t.pos == p)
    ensures forall p, t :: 0 <= p < size ==> (au[p] == Some(t) <==> t in utfs && t.pos == p)
  {
    FoundOnePerPos(found, Ascii, asciis);
    FoundOnePerPos(found, Utf8, utfs);
    aa := new Option<Text>[size](_ => None);
    au := new Option<Text>[size](_ => None);
    for i := 0 to |found|
      invariant IsIndex(aa[..], found, i, Ascii) && IsIndex(au[..], found, i, Utf8)
    {
      var el := found[i];
      assert el in found;
      IndexStep(aa[..], found, i, Ascii);
      IndexStep(au[..], found, i, Utf8);
      if el.enc.Ascii? {
        aa[el.pos] := Some(el);
      }
      if el.enc.Utf8? {
        au[el.pos] := Some(el);
      }
    }
    IndexDone(aa[..], found, Ascii, asciis);
    IndexDone(au[..], found, Utf8, utfs);
  }

  ghost predicate Swept(utfs: seq<Text>, i: nat, done: nat) {
    && done <= |utfs|
    && (forall j :: 0 <= j < done ==> utfs[j].pos < i)
    && (forall j :: done <= j < |utfs| ==> i <= utfs[j].pos)
  }

  /** The sweep has to be inside a text at `i` exactly when the last text that started
      before `i` is mixed and ends at `i` or later. */
  ghost predicate IsInside(b: seq<byte>, utfs: seq<Text>, i: nat, done: nat) {
    && 0 < done <= |utfs|
    && i <= utfs[done - 1].End() <= |b|
    && !AllAscii(b, utfs[done - 1])
  }

  /** Outside mixed texts an ASCII text can only start where an equal UTF-8 text starts. */
  lemma AsciiStartsInside(b: seq<byte>, lim: nat, asciis: seq<Text>, utfs: seq<Text>, a: Text, done: nat)
    requires 0 < lim && AsciiReport(b, lim, asciis) && Utf8Report(b, lim, utfs) && a in asciis
    requires Swept(utfs, a.pos, done) && (done < |utfs| ==> a.pos < utfs[done].pos)
    ensures IsInside(b, utfs, a.pos, done)
  {
    ReportsApart(b, Utf8Accepted(b), Utf8, lim, utfs);
    var u := AsciiInsideUtf8(b, lim, asciis, utfs, a);
    var j :| 0 <= j < |utfs| && utfs[j] == u;
    var first := if done < |utfs| then utfs[done] else u;
    assert j < done;
    var last := utfs[done - 1];
    assert j == done - 1;
    ProperPartIsMixed(b, lim, asciis, utfs, a, u);
  }

  lemma StartsHere(utfs: seq<Text>, i: nat, done: nat)
    requires Sorted(utfs) && Swept(utfs, i, done)
    ensures forall u :: u in utfs && u.pos == i ==> done < |utfs| && u == utfs[done]
    ensures Swept(utfs, i + 1, if done < |utfs| && utfs[done].pos == i then done + 1 else done)
  {
    forall u | u in utfs && u.pos == i ensures done < |utfs| && u == utfs[done] {
      var j :| 0 <= j < |utfs| && utfs[j] == u;
      var first := if done < |utfs| then utfs[done] else u;
      assert done <= j;
    }
  }

  /** What the sweep meets at position `i`: `a` and `u` are the texts that start there. */
  ghost predicate Meets(b: seq<byte>, utfs: seq<Text>, i: nat, done: nat, a: Option<Text>, u: Option<Text>)
    requires forall v :: v in utfs ==> v.End() <= |b|
  {
    if done < |utfs| && utfs[done].pos == i then
      && u == Some(utfs[done])
      && !IsInside(b, utfs, i, done)
      && (AllAscii(b, utfs[done]) ==> a == Some(utfs[done].(enc := Ascii)))
      && (!AllAscii(b, utfs[done]) && a.Some? ==> a.value.pos == i && a.value.len != utfs[done].len)
    else
      && u == None
      && (a.Some? ==> IsInside(b, utfs, i, done))
  }

  lemma WhatIsMet(b: seq<byte>, lim: nat, asciis: seq<Text>, utfs: seq<Text>, i: nat, done: nat,
                  a: Option<Text>, u: Option<Text>)
    requires 0 < lim && AsciiReport(b, lim, asciis) && Utf8Report(b, lim, utfs)
    requires Swept(utfs, i, done)
    requires forall t :: a == Some(t) <==> t in asciis && t.pos == i
    requires forall t :: u == Some(t) <==> t in utfs && t.pos == i
    ensures forall v :: v in utfs ==> v.End() <= |b|
    ensures Meets(b, utfs, i, done, a, u)
  {
    ReportsApart(b, Utf8Accepted(b), Utf8, lim, utfs);
    StartsHere(utfs, i, done);
    if done < |utfs| && utfs[done].pos == i {
      assert utfs[done] in utfs;
      assert u == Some(utfs[done]);
      AllAsciiIffBoth(b, lim, asciis, utfs, utfs[done]);
      if a.Some? {
        assert a == Some(a.value);
      }
    } else {
      assert forall t :: u == Some(t) ==> t.pos == i && t in utfs;
      if a.Some? {
        assert a == Some(a.value);
        AsciiStartsInside(b, lim, asciis, utfs, a.value, done);
      }
    }
  }

  /** What is left at a position: the slots after the deletions there. */
  function Remaining(a: Option<Text>, u: Option<Text>, inside: bool): (Option<Text>, Option<Text>) {
    var u' := if a.Some? && u.Some? && u.value.pos == a.value.pos && u.value.len == a.value.len then None else u;
    (if inside || u'.Some? then None else a, u')
  }

  /** That is the relabelled text that starts there, if one does. */
  lemma RemainsRelabelled(b: seq<byte>, utfs: seq<Text>, i: nat, done: nat, a: Option<Text>, u: Option<Text>, inside: bool)
    requires forall v :: v in utfs ==> 0 < v.len && v.End() <= |b|
    requires Meets(b, utfs, i, done, a, u) && (inside <==> IsInside(b, utfs, i, done))
    ensures var rest := Remaining(a, u, inside);
            if done < |utfs| && utfs[done].pos == i then
              if AllAscii(b, utfs[done]) then rest == (Some(Relabel(b, utfs[done])), None)
              else rest == (None, Some(Relabel(b, utfs[done])))
            else rest == (None, None)
  {
  }

  /** The sweep over the position-indexed arrays: both are emptied slot by slot. */
  method Sweep(aa: array<Option<Text>>, au: array<Option<Text>>, ghost b: seq<byte>, ghost utfs: seq<Text>)
    returns (ar: seq<Text>)
    requires aa != au && aa.Length == au.Length == |b| && Sorted(utfs)
    requires forall u :: u in utfs ==> 0 < u.len && u.End() <= |b|
    requires forall i, done :: 0 <= i < |b| && Swept(utfs, i, done) ==> Meets(b, utfs, i, done, aa[i], au[i])
    modifies aa, au
    ensures ar == Minimized(b, utfs)
  {
    ghost var aa0, au0, all, done := aa[..], au[..], Minimized(b, utfs), 0;
    var inside, end: nat := false, 0;
    ar := [];
    for i := 0 to aa.Length
      invariant Swept(utfs, i, done)
      invariant inside <==> IsInside(b, utfs, i, done)
      invariant inside ==> end == utfs[done - 1].End()
      invariant forall p :: i <= p < |b| ==> aa[p] == aa0[p] && au[p] == au0[p]
      invariant ar == all[..done]
    {
      ghost var starts := done < |utfs| && utfs[done].pos == i;
      assert Meets(b, utfs, i, done, aa[i], au[i]);
      ghost var rest := Remaining(aa[i], au[i], inside);
      RemainsRelabelled(b, utfs, i, done, aa[i], au[i], inside);
      assert starts ==> all[..done + 1] == all[..done] + [Relabel(b, utfs[done])];
      StartsHere(utfs, i, done);
      if aa[i].Some? && au[i].Some? {
        if au[i].value.pos == aa[i].value.pos && au[i].value.len == aa[i].value.len {
          au[i] := None;
        }
      }
      if au[i].Some? {
        inside := true;
        end := i + au[i].value.len;
      }
      if inside {
        aa[i] := None;
      }
      assert rest == (aa[i], au[i]);
      if i == end {
        inside := false;
      }
      if aa[i].Some? {
        ar := ar + [aa[i].value];
      }
      if au[i].Some? {
        ar := ar + [au[i].value];
      }
      if starts {
        done := done + 1;
      }
    }
    assert done == |utfs|;
  }

  /** `minimizeStrings`, on any interleaving of the lists: the result is the UTF-8 list in
      file order, relabelled; it does not depend on the interleaving. */
  method MinimizeStrings(b: seq<byte>, found: seq<Text>, ghost lim: nat, ghost asciis: seq<Text>, ghost utfs: seq<Text>)
    returns (ar: seq<Text>)
    requires 0 < lim && AsciiReport(b, lim, asciis) && Utf8Report(b, lim, utfs)
    requires Interleaves(found, asciis, utfs)
    ensures forall u :: u in utfs ==> u.End() <= |b|
    ensures ar == Minimized(b, utfs)
  {
    ReportsApart(b, AsciiAccepted(b), Ascii, lim, asciis);
    ReportsApart(b, Utf8Accepted(b), Utf8, lim, utfs);
    var aa, au := IndexByPos(found, |b|, asciis, utfs);
    forall i, done | 0 <= i < |b| && Swept(utfs, i, done) ensures Meets(b, utfs, i, done, aa[i], au[i]) {
      WhatIsMet(b, lim, asciis, utfs, i, done, aa[i], au[i]);
    }
    ar := Sweep(aa, au, b, utfs);
  }
}
