/** What the correlation workers make of one input. */
module Correlate {
  import opened Collections
  import opened Records

  /** The integers before the string whose raw value is its length, in list order. */
  function LengthFields(ints: seq<Int>, s: Text): (r: seq<Int>)
    ensures forall i :: i in r <==> i in ints && i.pos < s.pos && i.valU == s.len
  {
    if ints == [] then [] else
    var i := ints[|ints| - 1];
    LengthFields(ints[..|ints| - 1], s) + if i.pos < s.pos && i.valU == s.len then [i] else []
  }

  function IsLengthOf(s: Text): Int -> bool {
    (i: Int) => i.pos < s.pos && i.valU == s.len
  }

  /** All of them, in list order and as often as they occur. */
  lemma {:induction false} LengthFieldsSelects(ints: seq<Int>, s: Text) returns (at: seq<nat>)
    ensures Filters(ints, IsLengthOf(s), at, LengthFields(ints, s))
  {
    if ints == [] {
      at := [];
    } else {
      var n := |ints| - 1;
      at := LengthFieldsSelects(ints[..n], s);
      at := FiltersNext(ints, IsLengthOf(s), n, at, LengthFields(ints[..n], s));
      assert LengthFields(ints, s) == LengthFields(ints[..n], s) + if IsLengthOf(s)(ints[n]) then [ints[n]] else [];
    }
  }

  /** The block sent for a string: it and its length fields, if there are any. */
  function IntBlock(ints: seq<Int>, s: Text): Option<Block> {
    var fields := LengthFields(ints, s);
    if fields == [] then None else Some(Block([s], None, map[], [], fields))
  }

  /** What a sent block holds: the string, and all of its length fields in list order. None is
      sent if and only if there is no length field. */
  lemma IntBlockHolds(ints: seq<Int>, s: Text) returns (at: seq<nat>)
    ensures IntBlock(ints, s).Some? ==>
              && IntBlock(ints, s).value.t == [s] && IntBlock(ints, s).value.offsets == None
              && Filters(ints, IsLengthOf(s), at, IntBlock(ints, s).value.length)
    ensures IntBlock(ints, s).None? <==> forall i :: i in ints ==> !(i.pos < s.pos && i.valU == s.len)
  {
    at := LengthFieldsSelects(ints, s);
    var fields := LengthFields(ints, s);
    if fields != [] {
      assert fields[0] in fields;
    }
  }

  /** The position counters that are not zero. */
  method NonZero(p: seq<int>) returns (pcomp: map<nat, int>)
    ensures pcomp == map n: nat | n < |p| && p[n] != 0 :: p[n]
  {
    pcomp := map[];
    for iter := 0 to |p|
      invariant pcomp == map n: nat | n < iter && p[n] != 0 :: p[n]
    {
      if p[iter] != 0 {
        pcomp := pcomp[iter := p[iter]];
      }
    }
  }

  /** The body of `intWorker`'s loop, for a block that `CorrelateIntStrings` has sent: one
      string, and position counters that are all zero. */
  method IntWorkerStep(ints: seq<Int>, received: Block) returns (sent: Option<Block>)
    requires |received.t| == 1 && received.offsets == None && received.length == []
    requires forall n :: 0 <= n < |received.p| ==> received.p[n] == 0
    ensures sent == IntBlock(ints, received.t[0])
    ensures sent.Some? ==> sent.value.t == received.t
    ensures sent.Some? ==> exists at :: Filters(ints, IsLengthOf(received.t[0]), at, sent.value.length)
    ensures sent.None? ==> forall i :: i in ints ==> !(i.pos < received.t[0].pos && i.valU == received.t[0].len)
  {
    var b := received;
    var s := b.t[0];
    for n := 0 to |ints|
      invariant b == received.(length := LengthFields(ints[..n], s))
    {
      assert ints[..n + 1][..n] == ints[..n];
      var i := ints[n];
      if i.pos < s.pos {
        if i.valU == s.len {
          b := b.(length := b.length + [i]);
        }
      }
    }
    assert ints[..|ints|] == ints;
    var pcomp := NonZero(b.p);
    b := b.(pcomp := pcomp, p := []);
    assert b.t == [s];
    if |b.length| != 0 || |b.pcomp| != 0 {
      sent := Some(b);
    } else {
      sent := None;
    }
    ghost var at := IntBlockHolds(ints, s);
  }

  /** The integer may be the offset of the string: it is not smaller than its own width and
      does not exceed the string's position. */
  predicate Admissible(s: Text, z: Int) {
    z.byteW <= z.valU <= s.pos
  }

  /** The bases that the string and the integers from the `n`-th on hint at. */
  function BasesFrom(s: Text, ints: seq<Int>, n: nat): seq<int>
    requires n <= |ints|
    decreases |ints| - n
  {
    if n == |ints| then [] else
    (if Admissible(s, ints[n]) then [s.pos - ints[n].valU] else []) + BasesFrom(s, ints, n + 1)
  }

  /** The bases that the admissible pairs of one string hint at. */
  function BasesOf(s: Text, ints: seq<Int>): seq<int> {
    BasesFrom(s, ints, 0)
  }

  function Bases(strs: seq<Text>, ints: seq<Int>): seq<int> {
    if strs == [] then [] else
    Bases(strs[..|strs| - 1], ints) + BasesOf(strs[|strs| - 1], ints)
  }

  /** How often `o` occurs in `s`. */
  function CountOf(s: seq<int>, o: int): nat {
    if s == [] then 0 else
    CountOf(s[..|s| - 1], o) + if s[|s| - 1] == o then 1 else 0
  }

  lemma {:induction false} CountOfParts(a: seq<int>, b: seq<int>, o: int)
    ensures CountOf(a + b, o) == CountOf(a, o) + CountOf(b, o)
  {
    if b == [] {
      assert a + b == a;
    } else {
      assert (a + b)[..|a + b| - 1] == a + b[..|b| - 1];
      CountOfParts(a, b[..|b| - 1], o);
    }
  }

  lemma {:induction false} CountOfPositive(s: seq<int>, o: int)
    ensures o in s <==> CountOf(s, o) > 0
  {
    if s != [] {
      CountOfPositive(s[..|s| - 1], o);
      assert s == s[..|s| - 1] + [s[|s| - 1]];
    }
  }

  /** The admissible pairs that hint at the base `o`. */
  ghost function PairsAt(strs: seq<Text>, ints: seq<Int>, o: int): set<(nat, nat)> {
    set a: nat, b: nat | a < |strs| && b < |ints| && Admissible(strs[a], ints[b]) && strs[a].pos - ints[b].valU == o :: (a, b)
  }

  ghost function RowAt(s: Text, ints: seq<Int>, n: nat, o: int): set<nat> {
    set b: nat | n <= b < |ints| && Admissible(s, ints[b]) && s.pos - ints[b].valU == o
  }

  lemma {:induction false} BasesFromCount(s: Text, ints: seq<Int>, n: nat, o: int)
    requires n <= |ints|
    ensures CountOf(BasesFrom(s, ints, n), o) == |RowAt(s, ints, n, o)|
    decreases |ints| - n
  {
    if n < |ints| {
      BasesFromCount(s, ints, n + 1, o);
      CountOfParts(if Admissible(s, ints[n]) then [s.pos - ints[n].valU] else [], BasesFrom(s, ints, n + 1), o);
      var here := if Admissible(s, ints[n]) && s.pos - ints[n].valU == o then {n} else {};
      assert RowAt(s, ints, n, o) == RowAt(s, ints, n + 1, o) + here;
    } else {
      assert RowAt(s, ints, n, o) == {};
    }
  }

  ghost function Tagged(a: nat, bs: set<nat>): set<(nat, nat)> {
    set b | b in bs :: (a, b)
  }

  lemma {:induction false} TaggedSize(a: nat, bs: set<nat>)
    ensures |Tagged(a, bs)| == |bs|
  {
    if bs != {} {
      var x :| x in bs;
      TaggedSize(a, bs - {x});
      assert Tagged(a, bs) == Tagged(a, bs - {x}) + {(a, x)};
      assert (a, x) !in Tagged(a, bs - {x});
    }
  }

  /** A bucket of the histogram counts the admissible pairs that hint at its base. */
  lemma {:induction false} BasesCount(strs: seq<Text>, ints: seq<Int>, o: int)
    ensures CountOf(Bases(strs, ints), o) == |PairsAt(strs, ints, o)|
  {
    if strs != [] {
      var n := |strs| - 1;
      BasesCount(strs[..n], ints, o);
      BasesFromCount(strs[n], ints, 0, o);
      CountOfParts(Bases(strs[..n], ints), BasesOf(strs[n], ints), o);
      TaggedSize(n, RowAt(strs[n], ints, 0, o));
      PairsSplit(strs, ints, o);
    }
  }

  lemma PairsSplit(strs: seq<Text>, ints: seq<Int>, o: int)
    requires strs != []
    ensures var n := |strs| - 1;
            var row := Tagged(n, RowAt(strs[n], ints, 0, o));
            && PairsAt(strs, ints, o) == PairsAt(strs[..n], ints, o) + row
            && PairsAt(strs[..n], ints, o) !! row
  {
    var n := |strs| - 1;
    var all, less, row := PairsAt(strs, ints, o), PairsAt(strs[..n], ints, o), Tagged(n, RowAt(strs[n], ints, 0, o));
    forall a: nat, b: nat ensures (a, b) in all <==> (a, b) in less || (a, b) in row {
      assert a < n ==> strs[..n][a] == strs[a];
    }
    forall p ensures p in all <==> p in less || p in row {
      assert (p.0, p.1) == p;
    }
  }

  /** The admissible pairs. */
  ghost function AdmissiblePairs(strs: seq<Text>, ints: seq<Int>): set<(nat, nat)> {
    set a: nat, b: nat | a < |strs| && b < |ints| && Admissible(strs[a], ints[b]) :: (a, b)
  }

  ghost function AdmissibleRow(s: Text, ints: seq<Int>, n: nat): set<nat> {
    set b: nat | n <= b < |ints| && Admissible(s, ints[b])
  }

  lemma {:induction false} BasesFromSize(s: Text, ints: seq<Int>, n: nat)
    requires n <= |ints|
    ensures |BasesFrom(s, ints, n)| == |AdmissibleRow(s, ints, n)|
    decreases |ints| - n
  {
    if n < |ints| {
      BasesFromSize(s, ints, n + 1);
      var here := if Admissible(s, ints[n]) then {n} else {};
      assert AdmissibleRow(s, ints, n) == AdmissibleRow(s, ints, n + 1) + here;
    } else {
      assert AdmissibleRow(s, ints, n) == {};
    }
  }

  /** There is one base for each admissible pair. */
  lemma {:induction false} BasesSize(strs: seq<Text>, ints: seq<Int>)
    ensures |Bases(strs, ints)| == |AdmissiblePairs(strs, ints)|
  {
    if strs != [] {
      var n := |strs| - 1;
      BasesSize(strs[..n], ints);
      BasesFromSize(strs[n], ints, 0);
      TaggedSize(n, AdmissibleRow(strs[n], ints, 0));
      AdmissibleSplit(strs, ints);
    }
  }

  lemma AdmissibleSplit(strs: seq<Text>, ints: seq<Int>)
    requires strs != []
    ensures var n := |strs| - 1;
            var row := Tagged(n, AdmissibleRow(strs[n], ints, 0));
            && AdmissiblePairs(strs, ints) == AdmissiblePairs(strs[..n], ints) + row
            && AdmissiblePairs(strs[..n], ints) !! row
  {
    var n := |strs| - 1;
    var all, less, row := AdmissiblePairs(strs, ints), AdmissiblePairs(strs[..n], ints), Tagged(n, AdmissibleRow(strs[n], ints, 0));
    forall a: nat, b: nat ensures (a, b) in all <==> (a, b) in less || (a, b) in row {
      assert a < n ==> strs[..n][a] == strs[a];
    }
    forall p ensures p in all <==> p in less || p in row {
      assert (p.0, p.1) == p;
    }
  }

  /** The bases that some admissible pair hints at. */
  ghost function HintedBases(strs: seq<Text>, ints: seq<Int>): set<int> {
    set a: nat, b: nat | a < |strs| && b < |ints| && Admissible(strs[a], ints[b]) :: strs[a].pos - ints[b].valU
  }

  /** The pair of groups matches: some base is hinted at twice or more, and more often than
      half the number of hinted bases, rounded up. */
  ghost predicate Matches(strs: seq<Text>, ints: seq<Int>) {
    exists o :: o in HintedBases(strs, ints) && 2 <= |PairsAt(strs, ints, o)|
             && (|HintedBases(strs, ints)| + 1) / 2 < |PairsAt(strs, ints, o)|
  }

  ghost function GroupBlock(strs: seq<Text>, ints: seq<Int>, isc: GroupPair): Option<Block>
    requires isc.strBreaks.0 <= isc.strBreaks.1 <= |strs| && isc.intBreaks.0 <= isc.intBreaks.1 <= |ints|
  {
    var st, br := strs[isc.strBreaks.0..isc.strBreaks.1], ints[isc.intBreaks.0..isc.intBreaks.1];
    if Matches(st, br) then Some(Block([], Some(isc), map[], [], [])) else None
  }

  // ---- the matching pairs, in terms of the whole lists ----

  /** The string and the integer are in these groups and hint at the base `o`: the integer is
      not smaller than its width, and the string's position is `o` bytes more. */
  predicate HintsWithin(strs: seq<Text>, ints: seq<Int>, isc: GroupPair, a: nat, b: nat, o: int)
    requires isc.strBreaks.1 <= |strs| && isc.intBreaks.1 <= |ints|
  {
    && isc.strBreaks.0 <= a < isc.strBreaks.1
    && isc.intBreaks.0 <= b < isc.intBreaks.1
    && ints[b].byteW <= ints[b].valU <= strs[a].pos
    && strs[a].pos == ints[b].valU + o
  }

  ghost function PairsWithin(strs: seq<Text>, ints: seq<Int>, isc: GroupPair, o: int): set<(nat, nat)>
    requires isc.strBreaks.1 <= |strs| && isc.intBreaks.1 <= |ints|
  {
    set a: nat, b: nat | a < |strs| && b < |ints| && HintsWithin(strs, ints, isc, a, b, o) :: (a, b)
  }

  ghost function HintedWithin(strs: seq<Text>, ints: seq<Int>, isc: GroupPair): set<int>
    requires isc.strBreaks.1 <= |strs| && isc.intBreaks.1 <= |ints|
  {
    set a: nat, b: nat | a < |strs| && b < |ints| && HintsWithin(strs, ints, isc, a, b, strs[a].pos - ints[b].valU)
                       :: strs[a].pos - ints[b].valU
  }

  ghost function Shifted(ps: set<(nat, nat)>, da: nat, db: nat): set<(nat, nat)> {
    set p | p in ps :: (p.0 + da, p.1 + db)
  }

  lemma InShifted(ps: set<(nat, nat)>, da: nat, db: nat, a: nat, b: nat)
    ensures (a, b) in Shifted(ps, da, db) <==> da <= a && db <= b && (a - da, b - db) in ps
  {
    if da <= a && db <= b && (a - da, b - db) in ps {
      var p := (a - da, b - db);
      assert (p.0 + da, p.1 + db) == (a, b);
    }
  }

  lemma ShiftedWithout(ps: set<(nat, nat)>, da: nat, db: nat, p: (nat, nat))
    requires p in ps
    ensures Shifted(ps, da, db) == Shifted(ps - {p}, da, db) + {(p.0 + da, p.1 + db)}
    ensures (p.0 + da, p.1 + db) !in Shifted(ps - {p}, da, db)
  {
    InShifted(ps - {p}, da, db, p.0 + da, p.1 + db);
    assert (p.0, p.1) == p;
  }

  lemma {:induction false} ShiftedSize(ps: set<(nat, nat)>, da: nat, db: nat)
    ensures |Shifted(ps, da, db)| == |ps|
  {
    if ps != {} {
      var p :| p in ps;
      ShiftedWithout(ps, da, db, p);
      ShiftedSize(ps - {p}, da, db);
    }
  }

  /** One pair, by its places in the lists and in the slices. */
  lemma HintOfSlices(strs: seq<Text>, ints: seq<Int>, isc: GroupPair, a: nat, b: nat, o: int)
    requires isc.strBreaks.0 <= isc.strBreaks.1 <= |strs| && isc.intBreaks.0 <= isc.intBreaks.1 <= |ints|
    ensures var st, br := strs[isc.strBreaks.0..isc.strBreaks.1], ints[isc.intBreaks.0..isc.intBreaks.1];
            HintsWithin(strs, ints, isc, a + isc.strBreaks.0, b + isc.intBreaks.0, o) <==>
            a < |st| && b < |br| && Admissible(st[a], br[b]) && st[a].pos - br[b].valU == o
  {
  }

  lemma PairOfSlices(strs: seq<Text>, ints: seq<Int>, isc: GroupPair, o: int, a: nat, b: nat)
    requires isc.strBreaks.0 <= isc.strBreaks.1 <= |strs| && isc.intBreaks.0 <= isc.intBreaks.1 <= |ints|
    ensures var at := PairsAt(strs[isc.strBreaks.0..isc.strBreaks.1], ints[isc.intBreaks.0..isc.intBreaks.1], o);
            (a, b) in PairsWithin(strs, ints, isc, o) <==> (a, b) in Shifted(at, isc.strBreaks.0, isc.intBreaks.0)
  {
    var at := PairsAt(strs[isc.strBreaks.0..isc.strBreaks.1], ints[isc.intBreaks.0..isc.intBreaks.1], o);
    InShifted(at, isc.strBreaks.0, isc.intBreaks.0, a, b);
    if isc.strBreaks.0 <= a && isc.intBreaks.0 <= b {
      HintOfSlices(strs, ints, isc, a - isc.strBreaks.0, b - isc.intBreaks.0, o);
    }
  }

  lemma PairsOfSlices(strs: seq<Text>, ints: seq<Int>, isc: GroupPair, o: int)
    requires isc.strBreaks.0 <= isc.strBreaks.1 <= |strs| && isc.intBreaks.0 <= isc.intBreaks.1 <= |ints|
    ensures |PairsWithin(strs, ints, isc, o)|
            == |PairsAt(strs[isc.strBreaks.0..isc.strBreaks.1], ints[isc.intBreaks.0..isc.intBreaks.1], o)|
  {
    var at := PairsAt(strs[isc.strBreaks.0..isc.strBreaks.1], ints[isc.intBreaks.0..isc.intBreaks.1], o);
    var within, moved := PairsWithin(strs, ints, isc, o), Shifted(at, isc.strBreaks.0, isc.intBreaks.0);
    forall q ensures q in within <==> q in moved {
      PairOfSlices(strs, ints, isc, o, q.0, q.1);
      assert (q.0, q.1) == q;
    }
    assert within == moved;
    ShiftedSize(at, isc.strBreaks.0, isc.intBreaks.0);
  }

  lemma HintedInSlices(strs: seq<Text>, ints: seq<Int>, isc: GroupPair, o: int)
    requires isc.strBreaks.0 <= isc.strBreaks.1 <= |strs| && isc.intBreaks.0 <= isc.intBreaks.1 <= |ints|
    requires o in HintedWithin(strs, ints, isc)
    ensures o in HintedBases(strs[isc.strBreaks.0..isc.strBreaks.1], ints[isc.intBreaks.0..isc.intBreaks.1])
  {
    var a: nat, b: nat :| a < |strs| && b < |ints| && HintsWithin(strs, ints, isc, a, b, strs[a].pos - ints[b].valU)
                          && strs[a].pos - ints[b].valU == o;
    assert HintsWithin(strs, ints, isc, a, b, o);
    HintOfSlices(strs, ints, isc, a - isc.strBreaks.0, b - isc.intBreaks.0, o);
  }

  lemma HintedOfSlices(strs: seq<Text>, ints: seq<Int>, isc: GroupPair, o: int)
    requires isc.strBreaks.0 <= isc.strBreaks.1 <= |strs| && isc.intBreaks.0 <= isc.intBreaks.1 <= |ints|
    requires o in HintedBases(strs[isc.strBreaks.0..isc.strBreaks.1], ints[isc.intBreaks.0..isc.intBreaks.1])
    ensures o in HintedWithin(strs, ints, isc)
  {
    var st, br := strs[isc.strBreaks.0..isc.strBreaks.1], ints[isc.intBreaks.0..isc.intBreaks.1];
    var a: nat, b: nat :| a < |st| && b < |br| && Admissible(st[a], br[b]) && st[a].pos - br[b].valU == o;
    HintOfSlices(strs, ints, isc, a, b, o);
    var c, d := a + isc.strBreaks.0, b + isc.intBreaks.0;
    assert HintsWithin(strs, ints, isc, c, d, strs[c].pos - ints[d].valU);
  }

  /** A block is sent if and only if some base is hinted at by two or more pairs of the
      groups, and by more than half as many as there are hinted bases, rounded up; and it
      refers to this pair of groups. */
  lemma GroupBlockIff(strs: seq<Text>, ints: seq<Int>, isc: GroupPair)
    requires isc.strBreaks.0 <= isc.strBreaks.1 <= |strs| && isc.intBreaks.0 <= isc.intBreaks.1 <= |ints|
    ensures GroupBlock(strs, ints, isc).Some? <==>
            exists o :: && o in HintedWithin(strs, ints, isc) && 2 <= |PairsWithin(strs, ints, isc, o)|
                        && (|HintedWithin(strs, ints, isc)| + 1) / 2 < |PairsWithin(strs, ints, isc, o)|
    ensures GroupBlock(strs, ints, isc).Some? ==> GroupBlock(strs, ints, isc).value.offsets == Some(isc)
  {
    var within, bases := HintedWithin(strs, ints, isc),
                         HintedBases(strs[isc.strBreaks.0..isc.strBreaks.1], ints[isc.intBreaks.0..isc.intBreaks.1]);
    forall o ensures o in within <==> o in bases {
      if o in within {
        HintedInSlices(strs, ints, isc, o);
      }
      if o in bases {
        HintedOfSlices(strs, ints, isc, o);
      }
    }
    assert within == bases;
    forall o
      ensures |PairsWithin(strs, ints, isc, o)|
              == |PairsAt(strs[isc.strBreaks.0..isc.strBreaks.1], ints[isc.intBreaks.0..isc.intBreaks.1], o)|
    {
      PairsOfSlices(strs, ints, isc, o);
    }
  }

  function Ceil(x: real): int {
    -((-x).Floor)
  }

  /** The floating-point test of the source, on the reals. */
  predicate TooFlat(max: int, buckets: nat) {
    max <= 1 || (max as real) - 0.1 < Ceil(buckets as real / 2.0) as real
  }

  lemma TooFlatIsIntegerTest(max: int, buckets: nat)
    ensures TooFlat(max, buckets) <==> max <= 1 || max <= (buckets + 1) / 2
  {
    CeilOfHalf(buckets);
  }

  /** A number that a double represents exactly: a multiple of 1/16 below 2^49. */
  predicate IsExact(x: real) {
    (x * 16.0).Floor as real == x * 16.0 && -562949953421312.0 <= x <= 562949953421312.0
  }

  /** What IEEE rounding guarantees: it is monotone and keeps what is exact. */
  ghost predicate IsRounding(rnd: real -> real) {
    && (forall x, y :: x <= y ==> rnd(x) <= rnd(y))
    && (forall x :: IsExact(x) ==> rnd(x) == x)
  }

  /** The test of the source with every operation rounded; `tenth` is what `0.1` stands for. */
  ghost predicate TooFlatRounded(max: int, buckets: nat, rnd: real -> real, tenth: real) {
    max <= 1 || rnd(rnd(max as real) - tenth) < rnd(Ceil(rnd(rnd(buckets as real) / 2.0)) as real)
  }

  lemma WholesAreExact(n: int)
    requires -562949953421312 <= n <= 562949953421312
    ensures IsExact(n as real)
  {
    assert n as real * 16.0 == (16 * n) as real;
  }

  lemma HalvesAreExact(n: int)
    requires 0 <= n <= 562949953421312
    ensures IsExact(n as real / 2.0)
  {
    var x := n as real / 2.0;
    assert x + x == n as real;
    assert x * 16.0 == 8.0 * (x + x);
    assert 8.0 * (n as real) == (8 * n) as real;
  }

  lemma BelowIsExact(n: int)
    requires 1 <= n <= 562949953421312
    ensures IsExact(n as real - 0.0625)
  {
    assert (n as real - 0.0625) * 16.0 == (16 * n - 1) as real;
  }

  /** The rounded left-hand side is less than the count, by at most one. */
  lemma RoundedLeft(max: int, rnd: real -> real, tenth: real)
    requires IsRounding(rnd) && 0.0625 <= tenth <= 1.0 && 1 <= max <= 562949953421312
    ensures max as real - 1.0 <= rnd(rnd(max as real) - tenth) <= max as real - 0.0625
  {
    var x := max as real;
    WholesAreExact(max);
    WholesAreExact(max - 1);
    BelowIsExact(max);
    assert (max - 1) as real == x - 1.0;
    assert rnd(x - 1.0) <= rnd(x - tenth) <= rnd(x - 0.0625);
  }

  /** The right-hand side is exact. */
  lemma RoundedRight(buckets: nat, rnd: real -> real)
    requires IsRounding(rnd) && buckets <= 562949953421312
    ensures rnd(Ceil(rnd(rnd(buckets as real) / 2.0)) as real) == ((buckets + 1) / 2) as real
  {
    WholesAreExact(buckets);
    HalvesAreExact(buckets);
    CeilOfHalf(buckets);
    WholesAreExact((buckets + 1) / 2);
  }

  /** Rounding does not change the outcome, for any counts that fit into memory. */
  lemma RoundingIsHarmless(max: int, buckets: nat, rnd: real -> real, tenth: real)
    requires IsRounding(rnd) && 0.0625 <= tenth <= 1.0
    requires 0 <= max <= 562949953421312 && buckets <= 562949953421312
    ensures TooFlatRounded(max, buckets, rnd, tenth) <==> TooFlat(max, buckets)
  {
    TooFlatIsIntegerTest(max, buckets);
    if max >= 1 {
      RoundedLeft(max, rnd, tenth);
      RoundedRight(buckets, rnd);
    }
  }

  lemma CeilOfHalf(n: nat)
    ensures Ceil(n as real / 2.0) == (n + 1) / 2
  {
    var half := n / 2;
    var x := n as real / 2.0;
    if n == 2 * half {
      assert x == half as real;
    } else {
      assert n == 2 * half + 1;
      assert x == half as real + 0.5;
      assert (-x).Floor == -half - 1;
    }
  }

  /** `hist` is the histogram of `seen`, and `max` its largest bucket. */
  ghost predicate IsHistogram(hist: map<int, int>, max: int, seen: seq<int>) {
    && (forall o :: o in hist <==> CountOf(seen, o) > 0)
    && (forall o :: o in hist ==> hist[o] == CountOf(seen, o) && hist[o] <= max)
    && (max == 0 || exists o :: o in hist && hist[o] == max)
  }

  /** The inner loop of the histogram, for one string. */
  method CountString(s: Text, br: seq<Int>, hist: map<int, int>, max: int, ghost seen: seq<int>)
    returns (hist': map<int, int>, max': int)
    requires IsHistogram(hist, max, seen)
    ensures IsHistogram(hist', max', seen + BasesOf(s, br))
  {
    hist', max' := hist, max;
    ghost var now := seen;
    var n := 0;
    while n < |br|
      invariant n <= |br|
      invariant now + BasesFrom(s, br, n) == seen + BasesFrom(s, br, 0)
      invariant IsHistogram(hist', max', now)
    {
      var z := br[n];
      if z.byteW <= z.valU && z.valU <= s.pos {
        hist', max' := Count(hist', max', s.pos - z.valU, now);
        now := now + [s.pos - z.valU];
      }
      n := n + 1;
    }
    assert now + [] == now;
  }

  /** The body of `groupWorker`'s loop. */
  method GroupWorkerStep(strs: seq<Text>, ints: seq<Int>, isc: GroupPair) returns (sent: Option<Block>)
    requires isc.strBreaks.0 <= isc.strBreaks.1 <= |strs| && isc.intBreaks.0 <= isc.intBreaks.1 <= |ints|
    ensures sent == GroupBlock(strs, ints, isc)
  {
    var st, br := strs[isc.strBreaks.0..isc.strBreaks.1], ints[isc.intBreaks.0..isc.intBreaks.1];
    var max, hist: map<int, int> := 0, map[];
    for m := 0 to |st|
      invariant IsHistogram(hist, max, Bases(st[..m], br))
    {
      assert st[..m + 1][..m] == st[..m];
      hist, max := CountString(st[m], br, hist, max, Bases(st[..m], br));
    }
    assert st[..|st|] == st;
    var flat := TooFlat(max, |hist|);
    FlatIffNoMatch(hist, max, st, br);
    if flat {
      sent := None;
    } else {
      sent := Some(Block([], Some(isc), map[], [], []));
    }
  }

  lemma FlatIffNoMatch(hist: map<int, int>, max: int, strs: seq<Text>, ints: seq<Int>)
    requires IsHistogram(hist, max, Bases(strs, ints))
    ensures TooFlat(max, |hist|) <==> !Matches(strs, ints)
  {
    TooFlatIsIntegerTest(max, |hist|);
    HistogramOfPairs(hist, max, strs, ints);
    LowIffNoPeak(hist, max);
    PeakIffMatch(hist, strs, ints);
  }

  ghost predicate HasPeak(hist: map<int, int>) {
    exists o :: o in hist && 2 <= hist[o] && (|hist| + 1) / 2 < hist[o]
  }

  lemma LowIffNoPeak(hist: map<int, int>, max: int)
    requires forall o :: o in hist ==> hist[o] <= max
    requires max == 0 || exists o :: o in hist && hist[o] == max
    ensures max <= 1 || max <= (|hist| + 1) / 2 <==> !HasPeak(hist)
  {
  }

  lemma PeakIffMatch(hist: map<int, int>, strs: seq<Text>, ints: seq<Int>)
    requires hist.Keys == HintedBases(strs, ints)
    requires forall o :: o in hist ==> |PairsAt(strs, ints, o)| == hist[o]
    ensures HasPeak(hist) <==> Matches(strs, ints)
  {
    assert |hist| == |hist.Keys| == |HintedBases(strs, ints)|;
    forall o ensures o in hist <==> o in HintedBases(strs, ints) {
      assert o in hist <==> o in hist.Keys;
    }
  }

  /** The histogram in terms of pairs. */
  lemma HistogramOfPairs(hist: map<int, int>, max: int, strs: seq<Text>, ints: seq<Int>)
    requires IsHistogram(hist, max, Bases(strs, ints))
    ensures hist.Keys == HintedBases(strs, ints)
    ensures forall o :: o in hist ==> |PairsAt(strs, ints, o)| == hist[o] <= max
    ensures max == 0 || exists o :: o in hist && |PairsAt(strs, ints, o)| == hist[o] == max
  {
    var hinted := HintedBases(strs, ints);
    forall o ensures CountOf(Bases(strs, ints), o) == |PairsAt(strs, ints, o)| {
      BasesCount(strs, ints, o);
    }
    forall o ensures o in hist.Keys <==> o in hinted {
      HintedIffPairs(strs, ints, o);
    }
    assert hist.Keys == hinted;
  }

  /** The sum of some buckets. */
  ghost function Total(hist: map<int, int>, at: set<int>): int
    requires at <= hist.Keys
  {
    if exists o :: o in at then
      var o :| o in at;
      hist[o] + Total(hist, at - {o})
    else 0
  }

  lemma {:induction false} TotalWithout(hist: map<int, int>, at: set<int>, o: int)
    requires at <= hist.Keys && o in at
    ensures Total(hist, at) == hist[o] + Total(hist, at - {o})
    decreases at
  {
    var p :| p in at && Total(hist, at) == hist[p] + Total(hist, at - {p});
    if p != o {
      TotalWithout(hist, at - {p}, o);
      TotalWithout(hist, at - {o}, p);
      assert at - {p} - {o} == at - {o} - {p};
    }
  }

  lemma {:induction false} TotalAgrees(hist: map<int, int>, less: map<int, int>, at: set<int>)
    requires at <= hist.Keys && at <= less.Keys
    requires forall o :: o in at ==> hist[o] == less[o]
    ensures Total(hist, at) == Total(less, at)
    decreases at
  {
    if exists o :: o in at {
      var o :| o in at;
      TotalWithout(hist, at, o);
      TotalWithout(less, at, o);
      TotalAgrees(hist, less, at - {o});
    }
  }

  ghost predicate Counts(hist: map<int, int>, seen: seq<int>) {
    && (forall o :: o in hist.Keys <==> CountOf(seen, o) > 0)
    && (forall o :: o in hist.Keys ==> hist[o] == CountOf(seen, o))
  }

  lemma {:induction false} CountsTotal(hist: map<int, int>, seen: seq<int>)
    requires Counts(hist, seen)
    ensures Total(hist, hist.Keys) == |seen|
    decreases |seen|
  {
    if seen == [] {
      assert forall o :: o !in hist.Keys;
    } else {
      var o, before := seen[|seen| - 1], seen[..|seen| - 1];
      var less := if hist[o] == 1 then hist - {o} else hist[o := hist[o] - 1];
      CountsTotal(less, before);
      TotalWithout(hist, hist.Keys, o);
      TotalAgrees(hist, less, hist.Keys - {o});
      if o in less {
        assert less.Keys == hist.Keys;
        TotalWithout(less, less.Keys, o);
      } else {
        assert less.Keys == hist.Keys - {o};
      }
    }
  }

  /** The buckets sum to the number of admissible pairs. */
  lemma HistogramTotal(hist: map<int, int>, max: int, strs: seq<Text>, ints: seq<Int>)
    requires IsHistogram(hist, max, Bases(strs, ints))
    ensures Total(hist, hist.Keys) == |AdmissiblePairs(strs, ints)|
  {
    CountsTotal(hist, Bases(strs, ints));
    BasesSize(strs, ints);
  }

  lemma HintedIffPairs(strs: seq<Text>, ints: seq<Int>, o: int)
    ensures o in HintedBases(strs, ints) <==> |PairsAt(strs, ints, o)| > 0
  {
    if o in HintedBases(strs, ints) {
      var a: nat, b: nat :| a < |strs| && b < |ints| && Admissible(strs[a], ints[b]) && strs[a].pos - ints[b].valU == o;
      assert (a, b) in PairsAt(strs, ints, o);
    }
    if |PairsAt(strs, ints, o)| > 0 {
      var p :| p in PairsAt(strs, ints, o);
    }
  }

  method Count(hist: map<int, int>, max: int, o: int, ghost seen: seq<int>) returns (hist': map<int, int>, max': int)
    requires IsHistogram(hist, max, seen)
    ensures IsHistogram(hist', max', seen + [o])
  {
    hist' := hist[o := (if o in hist then hist[o] else 0) + 1];
    max' := if hist'[o] > max then hist'[o] else max;
    assert (seen + [o])[..|seen|] == seen;
    if max' == max {
      var p :| p in hist && hist[p] == max;
      assert p in hist';
    }
  }
}
