/** The integer scan: candidates at all places that no text covers. */
module ScanInts {
  import opened Bytes
  import opened Records
  import opened Codec
  import opened Dedup

  predicate PlausibleSigned(i: int, size: nat) {
    if i == 0 then false
    else if i < -10 then false
    else if i < 0 then true
    else if i == 256 then false
    else i <= size
  }

  predicate PlausibleUnsigned(i: nat, size: nat) {
    if i == 0 then false
    else if i == 256 then false
    else i <= size
  }

  predicate IsWidth(w: nat) {
    w == 2 || w == 4 || w == 8
  }

  ghost predicate Covered(texts: seq<Text>, p: nat) {
    exists t :: t in texts && t.pos <= p < t.End()
  }

  /** `i` is what the bytes `bs` at its place say, and its value may be a length: between 1
      and the file size but not 256 when unsigned, between -10 and -1 when signed. */
  ghost predicate IsReading(bs: seq<byte>, size: nat, i: Int) {
    && i.byteW == i.enc.width == |bs|
    && i.valU == Decode(bs, i.enc.order)
    && i.valS == Signed(i.valU, |bs|)
    && (if i.enc.signed then -10 <= i.valS <= -1 else 1 <= i.valU <= size && i.valU != 256)
  }

  /** A place of width `w` that is inside the file with a byte to spare and free of text. */
  ghost predicate IsPlace(size: nat, texts: seq<Text>, pos: nat, w: nat) {
    && IsWidth(w)
    && pos + w < size
    && (forall p :: pos <= p < pos + w ==> !Covered(texts, p))
  }

  /** The integers that the scan of the file `b` has to record. */
  ghost predicate IsCandidate(b: seq<byte>, texts: seq<Text>, i: Int) {
    && IsPlace(|b|, texts, i.pos, i.byteW)
    && IsReading(b[i.pos..i.End()], |b|, i)
  }

  ghost predicate Distinct(s: seq<Int>) {
    forall i :: multiset(s)[i] <= 1
  }

  ghost predicate SortedByPos(s: seq<Int>) {
    forall m, n :: 0 <= m < n < |s| ==> s[m].pos <= s[n].pos
  }

  lemma SignedFacts(v: nat, w: nat)
    requires IsWidth(w) && v < Values(w)
    ensures -0x8000_0000_0000_0000 <= Signed(v, w)
    ensures Signed(v, w) < 0 || v == ToUint64(Signed(v, w))
  {
    ValuesOfWidths();
  }

  /** The two readings that a width and a byte order allow. */
  function Reading(bs: seq<byte>, pos: nat, order: ByteOrder, signed: bool): Int {
    var v := Decode(bs, order);
    Int(IntEnc(signed, |bs|, order), |bs|, pos, Signed(v, |bs|), v)
  }

  lemma OnlyReadings(bs: seq<byte>, size: nat, pos: nat, order: ByteOrder, i: Int)
    requires IsWidth(|bs|)
    ensures var u, s := Reading(bs, pos, order, false), Reading(bs, pos, order, true);
            i.pos == pos && i.enc.order == order && IsReading(bs, size, i) <==>
              || (i == u && PlausibleUnsigned(u.valU, size))
              || (i == s && s.valS < 0 && PlausibleSigned(s.valS, size))
  {
  }

  /** `checkInt` for one width and one byte order: what it adds to the list. */
  method CheckOrder(bs: seq<byte>, pos: nat, size: nat, order: ByteOrder) returns (added: seq<Int>)
    requires IsWidth(|bs|)
    ensures forall i :: i in added <==> i.pos == pos && i.enc.order == order && IsReading(bs, size, i)
    ensures Distinct(added)
  {
    var w := |bs|;
    var udata := Decode(bs, order);
    var sdata := Signed(udata, w);
    DecodeBound(bs, order);
    SignedFacts(udata, w);
    added := [];
    if PlausibleUnsigned(udata, size) {
      added := added + [Int(IntEnc(false, w, order), w, pos, sdata, udata)];
    }
    if sdata < 0 || udata != ToUint64(sdata) {
      if PlausibleSigned(sdata, size) {
        added := added + [Int(IntEnc(true, w, order), w, pos, sdata, udata)];
      }
    }
    forall i ensures i in added <==> i.pos == pos && i.enc.order == order && IsReading(bs, size, i) {
      OnlyReadings(bs, size, pos, order, i);
    }
  }

  /** The signed value is in the upper or the lower half of its range, and congruent to the
      raw one. */
  predicate IsTwosComplement(i: Int, w: nat) {
    && (i.valS == i.valU || i.valS == i.valU - Values(w))
    && 0 <= 2 * i.valS + Values(w) && 2 * i.valS < Values(w)
  }

  ghost predicate AreTwosComplement(ints: seq<Int>, w: nat) {
    forall i :: i in ints ==> IsTwosComplement(i, w)
  }

  lemma ReadingIsTwosComplement(bs: seq<byte>, size: nat, i: Int)
    requires IsWidth(|bs|) && IsReading(bs, size, i)
    ensures IsTwosComplement(i, |bs|)
  {
    DecodeBound(bs, i.enc.order);
    SignedLaw(i.valU, |bs|);
  }

  /** `checkInt`, given the bytes from `pos` on. */
  method CheckInt(bf: seq<byte>, pos: nat, w: nat, size: nat) returns (added: seq<Int>)
    requires IsWidth(w) && w <= |bf|
    ensures forall i :: i in added <==> i.pos == pos && IsReading(bf[..w], size, i)
    ensures Distinct(added)
    ensures AreTwosComplement(added, w)
  {
    var big := CheckOrder(bf[..w], pos, size, BigEndian);
    var little := CheckOrder(bf[..w], pos, size, LittleEndian);
    added := big + little;
    forall i ensures multiset(added)[i] <= 1 {
      assert multiset(added) == multiset(big) + multiset(little);
      assert i in multiset(big) ==> i in big;
      assert i in multiset(little) ==> i in little;
    }
    forall i | i in added ensures IsTwosComplement(i, w) {
      ReadingIsTwosComplement(bf[..w], size, i);
    }
  }

  /** The additions of a goroutine reach the shared list in any order, between any of the
      additions of the others. */
  method AddConcurrently(intz: Ints, added: seq<Int>)
    requires Distinct(intz.i) && Distinct(added)
    requires forall i :: i in added ==> i !in intz.i
    modifies intz
    ensures multiset(intz.i) == old(multiset(intz.i)) + multiset(added)
    ensures Distinct(intz.i)
    ensures forall i :: i in intz.i <==> i in old(intz.i) || i in added
  {
    for n := 0 to |added|
      invariant multiset(intz.i) == old(multiset(intz.i)) + multiset(added[..n])
    {
      var s := intz.i;
      var k :| 0 <= k <= |s|;
      assert s == s[..k] + s[k..];
      InsertedMultiset(s[..k], added[n], s[k..]);
      intz.i := s[..k] + [added[n]] + s[k..];
      assert added[..n + 1] == added[..n] + [added[n]];
    }
    assert added[..|added|] == added;
    DistinctUnion(old(intz.i), added, intz.i);
  }

  lemma DistinctUnion(a: seq<Int>, b: seq<Int>, all: seq<Int>)
    requires Distinct(a) && Distinct(b) && forall i :: i in b ==> i !in a
    requires multiset(all) == multiset(a) + multiset(b)
    ensures Distinct(all) && forall i :: i in all <==> i in a || i in b
  {
    forall i
      ensures i in all <==> i in a || i in b
      ensures multiset(all)[i] <= 1
    {
      assert i in multiset(all) <==> i in multiset(a) || i in multiset(b);
      assert i in multiset(a) <==> i in a;
      assert i in multiset(b) <==> i in b;
    }
  }

  lemma InsertedMultiset(l: seq<Int>, x: Int, r: seq<Int>)
    ensures multiset(l + [x] + r) == multiset(l + r) + multiset{x}
  {
  }

  method Mask(size: nat, texts: seq<Text>) returns (instring: array<bool>)
    requires forall t :: t in texts ==> t.End() <= size
    ensures fresh(instring) && instring.Length == size
    ensures forall p :: 0 <= p < size ==> (instring[p] <==> Covered(texts, p))
  {
    instring := new bool[size](_ => false);
    for n := 0 to |texts|
      invariant forall p :: 0 <= p < size ==> (instring[p] <==> Covered(texts[..n], p))
    {
      var el := texts[n];
      assert el in texts;
      ghost var was := instring[..];
      for i := el.pos to el.End()
        invariant forall p :: 0 <= p < size ==> instring[p] == (was[p] || el.pos <= p < i)
      {
        instring[i] := true;
      }
      forall p | 0 <= p < size ensures instring[p] <==> Covered(texts[..n + 1], p) {
        CoveredStep(texts, n, p);
      }
    }
    assert texts[..|texts|] == texts;
  }

  lemma CoveredStep(texts: seq<Text>, n: nat, p: nat)
    requires n < |texts|
    ensures Covered(texts[..n + 1], p) <==> Covered(texts[..n], p) || texts[n].pos <= p < texts[n].End()
  {
    assert texts[..n + 1] == texts[..n] + [texts[n]];
  }

  /** The candidates at places before (`pos`, `w`), in the order in which they are tried. */
  ghost predicate RecordedBefore(b: seq<byte>, texts: seq<Text>, pos: nat, w: nat, ints: seq<Int>) {
    forall x :: x in ints <==> IsCandidate(b, texts, x) && (x.pos < pos || (x.pos == pos && x.byteW < w))
  }

  /** One of the three checks made at every position. */
  method TryPlace(b: seq<byte>, instring: array<bool>, ghost texts: seq<Text>, pos: nat, w: nat, intz: Ints)
    requires 8 <= |b| && IsWidth(w) && pos < |b|
    requires instring.Length == |b|
    requires forall p :: 0 <= p < |b| ==> (instring[p] <==> Covered(texts, p))
    requires RecordedBefore(b, texts, pos, w, intz.i) && Distinct(intz.i)
    modifies intz
    ensures RecordedBefore(b, texts, pos, if w == 8 then 9 else 2 * w, intz.i) && Distinct(intz.i)
  {
    if pos < |b| - w && !InString(instring, pos, w) {
      var added := CheckInt(b[pos..], pos, w, |b|);
      assert b[pos..][..w] == b[pos..pos + w];
      AddConcurrently(intz, added);
    }
  }

  predicate InString(instring: array<bool>, pos: nat, w: nat)
    requires pos + w <= instring.Length
    reads instring
  {
    exists p :: pos <= p < pos + w && instring[p]
  }

  method Record(b: seq<byte>, texts: seq<Text>, intz: Ints)
    requires 8 <= |b| && intz.i == []
    requires forall t :: t in texts ==> t.End() <= |b|
    modifies intz
    ensures forall x :: x in intz.i <==> IsCandidate(b, texts, x)
    ensures Distinct(intz.i)
  {
    var instring := Mask(|b|, texts);
    for i := 0 to |b|
      modifies intz
      invariant RecordedBefore(b, texts, i, 0, intz.i) && Distinct(intz.i)
    {
      TryPlace(b, instring, texts, i, 2, intz);
      TryPlace(b, instring, texts, i, 4, intz);
      TryPlace(b, instring, texts, i, 8, intz);
    }
  }

  method Insert(s: seq<Int>, x: Int) returns (r: seq<Int>)
    requires SortedByPos(s)
    ensures multiset(r) == multiset(s) + multiset{x} && SortedByPos(r)
  {
    var k := 0;
    while k < |s| && s[k].pos <= x.pos
      invariant k <= |s| && forall m :: 0 <= m < k ==> s[m].pos <= x.pos
    {
      k := k + 1;
    }
    assert s == s[..k] + s[k..];
    InsertedMultiset(s[..k], x, s[k..]);
    InsertedSorted(s, k, x);
    r := s[..k] + [x] + s[k..];
  }

  lemma InsertedSorted(s: seq<Int>, k: nat, x: Int)
    requires SortedByPos(s) && k <= |s|
    requires (forall m :: 0 <= m < k ==> s[m].pos <= x.pos) && (k < |s| ==> x.pos < s[k].pos)
    ensures SortedByPos(s[..k] + [x] + s[k..])
  {
    var r := s[..k] + [x] + s[k..];
    forall m, n | 0 <= m < n < |r| ensures r[m].pos <= r[n].pos {
      assert r[m] == (if m < k then s[m] else if m == k then x else s[m - 1]);
      assert r[n] == (if n < k then s[n] else if n == k then x else s[n - 1]);
    }
  }

  /** `sort.Slice` by position. Only the contract is used: the order of integers at the
      same position is left open. */
  method SortByPos(s: seq<Int>) returns (r: seq<Int>)
    ensures multiset(r) == multiset(s) && SortedByPos(r)
  {
    r := [];
    for n := 0 to |s|
      invariant multiset(r) == multiset(s[..n]) && SortedByPos(r)
    {
      r := Insert(r, s[n]);
      assert s[..n + 1] == s[..n] + [s[n]];
    }
    assert s[..|s|] == s;
  }

  /** `ScanInts`. Without deduplication the list holds exactly the candidates of the file,
      each once; with it, the deduplication of some order `found` of them. */
  method Scan(b: seq<byte>, texts: seq<Text>, dedup: bool, intz: Ints) returns (ghost found: seq<Int>)
    requires 8 <= |b| && intz.i == []
    requires forall t :: t in texts ==> t.End() <= |b|
    modifies intz
    ensures Distinct(found) && forall x :: x in found <==> IsCandidate(b, texts, x)
    ensures SortedByPos(intz.i)
    ensures multiset(intz.i) == multiset(if dedup then Deduped(found) else found)
    ensures forall x :: x in intz.i ==> IsCandidate(b, texts, x)
    ensures !dedup ==> forall x :: x in intz.i <==> IsCandidate(b, texts, x)
  {
    Record(b, texts, intz);
    found := intz.i;
    if dedup {
      DedupedKeeps(found);
      var newints := Deduplicate(intz.i, |b|);
      intz.i := newints;
    }
    ghost var before := intz.i;
    var sorted := SortByPos(intz.i);
    intz.i := sorted;
    forall x ensures x in intz.i <==> x in before {
      assert x in multiset(intz.i) <==> x in multiset(before);
    }
  }

  /** At every place and in both byte orders, the ten largest raw values, and no others, are
      recorded as signed ones, from -10 to -1. */
  lemma NegativeIsCandidate(b: seq<byte>, texts: seq<Text>, pos: nat, w: nat, order: ByteOrder)
    requires IsPlace(|b|, texts, pos, w)
    ensures var v := Decode(b[pos..pos + w], order);
            IsCandidate(b, texts, Int(IntEnc(true, w, order), w, pos, v - Values(w), v)) <==> Values(w) - 10 <= v
  {
    var v := Decode(b[pos..pos + w], order);
    DecodeBound(b[pos..pos + w], order);
    SignedLaw(v, w);
    ValuesOfWidths();
  }

  /** And the raw values from 1 to the file size, but 256, and no others, as unsigned ones. */
  lemma PositiveIsCandidate(b: seq<byte>, texts: seq<Text>, pos: nat, w: nat, order: ByteOrder)
    requires IsPlace(|b|, texts, pos, w)
    ensures var v := Decode(b[pos..pos + w], order);
            IsCandidate(b, texts, Int(IntEnc(false, w, order), w, pos, if 2 * v < Values(w) then v else v - Values(w), v))
            <==> 1 <= v <= |b| && v != 256
  {
    DecodeBound(b[pos..pos + w], order);
    SignedLaw(Decode(b[pos..pos + w], order), w);
  }

  /** A plausible reading free of text is recorded if and only if it does not end the file. */
  lemma LastPlaceIsMissed(b: seq<byte>, texts: seq<Text>, i: Int)
    requires i.End() <= |b| && IsWidth(i.byteW) && IsReading(b[i.pos..i.End()], |b|, i)
    requires forall p :: i.pos <= p < i.End() ==> !Covered(texts, p)
    ensures IsCandidate(b, texts, i) <==> i.End() != |b|
  {
  }

  /** Writing the value of a recorded integer back leaves the file unchanged. */
  lemma WriteBack(b: seq<byte>, texts: seq<Text>, i: Int)
    requires IsCandidate(b, texts, i)
    ensures Overwrite(b, i.pos, Encode(i.valU, i.enc.width, i.enc.order)) == b
  {
    EncodeDecode(b[i.pos..i.End()], i.enc.order);
  }

  /** After any value has been written, the field reads as that value modulo 2^(8 w), and
      no byte outside the field has changed. */
  lemma WriteThenRead(b: seq<byte>, texts: seq<Text>, i: Int, val: nat)
    requires IsCandidate(b, texts, i)
    ensures var after := Overwrite(b, i.pos, Encode(val, i.enc.width, i.enc.order));
            && Decode(after[i.pos..i.End()], i.enc.order) == val % Values(i.byteW)
            && (forall p :: 0 <= p < |b| && !(i.pos <= p < i.End()) ==> after[p] == b[p])
  {
    var bs := Encode(val, i.enc.width, i.enc.order);
    var after := Overwrite(b, i.pos, bs);
    assert after[i.pos..i.End()] == bs;
    DecodeEncode(val, i.byteW, i.enc.order);
  }
}
