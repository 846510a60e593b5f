/** Deduplication of the integer candidates through the per-byte value index `belm`. */
module Dedup {
  import opened Collections
  import opened Records

  function OfWidth(ints: seq<Int>, w: nat): (r: seq<Int>)
    ensures forall i :: i in r <==> i in ints && i.byteW == w
  {
    if ints == [] then [] else
    var n := |ints| - 1;
    assert ints == ints[..n] + [ints[n]];
    OfWidth(ints[..n], w) + if ints[n].byteW == w then [ints[n]] else []
  }

  function HasWidth(w: nat): Int -> bool {
    (i: Int) => i.byteW == w
  }

  /** The filter keeps all integers of the width, in order and as often as they occur. */
  lemma {:induction false} OfWidthSelects(ints: seq<Int>, w: nat) returns (at: seq<nat>)
    ensures Filters(ints, HasWidth(w), at, OfWidth(ints, w))
  {
    if ints == [] {
      at := [];
    } else {
      var n := |ints| - 1;
      at := OfWidthSelects(ints[..n], w);
      at := FiltersNext(ints, HasWidth(w), n, at, OfWidth(ints[..n], w));
      assert OfWidth(ints, w) == OfWidth(ints[..n], w) + if ints[n].byteW == w then [ints[n]] else [];
    }
  }

  /** `W16`, `W32` and `W64`. */
  method SelectWidth(ints: seq<Int>, w: nat) returns (ns: seq<Int>)
    ensures ns == OfWidth(ints, w)
  {
    ns := [];
    for n := 0 to |ints|
      invariant ns == OfWidth(ints[..n], w)
    {
      assert ints[..n + 1][..n] == ints[..n];
      if ints[n].byteW == w {
        ns := ns + [ints[n]];
      }
    }
    assert ints[..|ints|] == ints;
  }

  predicate Covers(k: Int, p: nat) {
    k.pos <= p < k.End()
  }

  /** Some kept integer of the same raw value covers the first byte of `j`. */
  predicate Blocked(kept: seq<Int>, j: Int) {
    exists k :: k in kept && k.valU == j.valU && Covers(k, j.pos)
  }

  /** The quadratic check: go through `todo`, keeping what the kept ones do not block. */
  function Greedy(kept: seq<Int>, todo: seq<Int>): seq<Int>
    decreases |todo|
  {
    if todo == [] then kept
    else if Blocked(kept, todo[0]) then Greedy(kept, todo[1..])
    else Greedy(kept + [todo[0]], todo[1..])
  }

  function Deduped(ints: seq<Int>): seq<Int> {
    Greedy(Greedy(OfWidth(ints, 8), OfWidth(ints, 4)), OfWidth(ints, 2))
  }

  /** No integer from `from` on starts at a byte that an earlier one of the same raw value
      covers. */
  ghost predicate Unblocked(kept: seq<Int>, from: nat) {
    forall n :: from <= n < |kept| ==> !Blocked(kept[..n], kept[n])
  }

  lemma {:induction false} GreedyExtends(kept: seq<Int>, todo: seq<Int>)
    ensures kept <= Greedy(kept, todo)
    ensures forall i :: i in Greedy(kept, todo) ==> i in kept || i in todo
    ensures Unblocked(Greedy(kept, todo), |kept|)
    decreases |todo|
  {
    if todo != [] {
      if Blocked(kept, todo[0]) {
        GreedyExtends(kept, todo[1..]);
      } else {
        GreedyExtends(kept + [todo[0]], todo[1..]);
        assert Greedy(kept, todo)[..|kept|] == (kept + [todo[0]])[..|kept|] == kept;
        assert Greedy(kept, todo)[|kept|] == (kept + [todo[0]])[|kept|] == todo[0];
      }
    }
  }

  /** `k` stands for the dropped `j`: same raw value, over the first byte of `j`. */
  ghost predicate StandsFor(k: Int, j: Int) {
    k.valU == j.valU && Covers(k, j.pos)
  }

  lemma {:induction false} GreedyParts(kept: seq<Int>, a: seq<Int>, b: seq<Int>)
    ensures Greedy(kept, a + b) == Greedy(Greedy(kept, a), b)
    decreases |a|
  {
    if a == [] {
      assert a + b == b;
    } else {
      assert (a + b)[0] == a[0] && (a + b)[1..] == a[1..] + b;
      GreedyParts(if Blocked(kept, a[0]) then kept else kept + [a[0]], a[1..], b);
    }
  }

  /** An integer that is dropped was blocked by those kept before it was examined. */
  lemma GreedyDrops(kept: seq<Int>, pre: seq<Int>, j: Int, post: seq<Int>) returns (k: Int)
    requires j !in Greedy(kept, pre + [j] + post)
    ensures k in Greedy(kept, pre) && StandsFor(k, j)
    ensures Greedy(kept, pre) <= Greedy(kept, pre + [j] + post)
  {
    var before := Greedy(kept, pre);
    GreedyParts(kept, pre + [j], post);
    GreedyParts(kept, pre, [j]);
    GreedyExtends(before, [j]);
    GreedyExtends(Greedy(before, [j]), post);
    assert j in before + [j];
    assert !Blocked(before, j) ==> Greedy(before, [j]) == before + [j];
    k :| k in before && k.valU == j.valU && Covers(k, j.pos);
  }

  /** What deduplication promises, for every order of the list: all 8-byte integers are
      kept, in order and first; nothing is invented; and no narrower one that is kept
      starts inside an integer of equal raw value kept before it. */
  lemma DedupedKeeps(ints: seq<Int>)
    ensures OfWidth(ints, 8) <= Deduped(ints)
    ensures forall i :: i in Deduped(ints) ==> i in ints
    ensures Unblocked(Deduped(ints), |OfWidth(ints, 8)|)
  {
    var wide, mid := OfWidth(ints, 8), OfWidth(ints, 4);
    var some, all := Greedy(wide, mid), Deduped(ints);
    GreedyExtends(wide, mid);
    GreedyExtends(some, OfWidth(ints, 2));
    forall n | |wide| <= n < |all| ensures !Blocked(all[..n], all[n]) {
      if n < |some| {
        assert all[..n] == some[..n];
      }
    }
  }

  /** What has been kept when the `p`-th integer is examined: the passes go from wide to
      narrow, each in list order. */
  function KeptBefore(ints: seq<Int>, p: nat): seq<Int>
    requires p < |ints|
  {
    var wide, w := OfWidth(ints, 8), ints[p].byteW;
    if w == 8 then OfWidth(ints[..p], 8)
    else if w == 4 then Greedy(wide, OfWidth(ints[..p], 4))
    else Greedy(Greedy(wide, OfWidth(ints, 4)), OfWidth(ints[..p], 2))
  }

  lemma OfWidthAround(pre: seq<Int>, j: Int, post: seq<Int>, w: nat)
    requires j.byteW == w
    ensures OfWidth(pre + [j] + post, w) == OfWidth(pre, w) + [j] + OfWidth(post, w)
  {
    OfWidthParts(pre + [j], post, w);
    OfWidthParts(pre, [j], w);
    OfWidthUniform([j], w, w);
  }

  /** The same for one pass over the integers of one width. */
  lemma PassDrops(kept: seq<Int>, ints: seq<Int>, p: nat) returns (k: Int)
    requires p < |ints| && ints[p] !in Greedy(kept, OfWidth(ints, ints[p].byteW))
    ensures k in Greedy(kept, OfWidth(ints[..p], ints[p].byteW)) && StandsFor(k, ints[p])
    ensures Greedy(kept, OfWidth(ints[..p], ints[p].byteW)) <= Greedy(kept, OfWidth(ints, ints[p].byteW))
    ensures k in kept || k.byteW == ints[p].byteW
  {
    var j, w := ints[p], ints[p].byteW;
    assert ints == ints[..p] + [j] + ints[p + 1..];
    OfWidthAround(ints[..p], j, ints[p + 1..], w);
    k := GreedyDrops(kept, OfWidth(ints[..p], w), j, OfWidth(ints[p + 1..], w));
    GreedyExtends(kept, OfWidth(ints[..p], w));
  }

  /** Every integer of one of the three widths that is dropped has one standing for it that
      was kept before it was examined and is at least as wide. */
  lemma DedupedDrops(ints: seq<Int>, p: nat) returns (k: Int)
    requires p < |ints| && ints[p] !in Deduped(ints)
    requires ints[p].byteW == 2 || ints[p].byteW == 4 || ints[p].byteW == 8
    ensures k in KeptBefore(ints, p) && StandsFor(k, ints[p]) && ints[p].byteW <= k.byteW
    ensures KeptBefore(ints, p) <= Deduped(ints)
  {
    var wide, mid, small := OfWidth(ints, 8), OfWidth(ints, 4), OfWidth(ints, 2);
    var some := Greedy(wide, mid);
    GreedyExtends(wide, mid);
    GreedyExtends(some, small);
    assert ints[p] in wide || ints[p].byteW != 8;
    k := PassDrops(if ints[p].byteW == 4 then wide else some, ints, p);
  }

  lemma {:induction false} GreedyKeepsAll(kept: seq<Int>, todo: seq<Int>)
    requires Unblocked(kept + todo, |kept|)
    ensures Greedy(kept, todo) == kept + todo
    decreases |todo|
  {
    if todo == [] {
      assert kept + todo == kept;
    } else {
      var all := kept + todo;
      assert all[..|kept|] == kept && all[|kept|] == todo[0];
      assert (kept + [todo[0]]) + todo[1..] == all;
      GreedyKeepsAll(kept + [todo[0]], todo[1..]);
    }
  }

  lemma {:induction false} OfWidthParts(a: seq<Int>, b: seq<Int>, w: nat)
    ensures OfWidth(a + b, w) == OfWidth(a, w) + OfWidth(b, w)
  {
    if b == [] {
      assert a + b == a;
    } else {
      var n := |b| - 1;
      assert (a + b)[..|a + b| - 1] == a + b[..n];
      OfWidthParts(a, b[..n], w);
    }
  }

  lemma {:induction false} OfWidthUniform(a: seq<Int>, v: nat, w: nat)
    requires forall i :: i in a ==> i.byteW == v
    ensures OfWidth(a, w) == if v == w then a else []
  {
    if a != [] {
      var n := |a| - 1;
      assert a[n] in a && a == a[..n] + [a[n]];
      OfWidthUniform(a[..n], v, w);
    }
  }

  lemma WidthOfParts(wide: seq<Int>, mid: seq<Int>, small: seq<Int>, w: nat)
    requires forall i :: i in wide ==> i.byteW == 8
    requires forall i :: i in mid ==> i.byteW == 4
    requires forall i :: i in small ==> i.byteW == 2
    ensures OfWidth(wide + mid + small, w) ==
            (if w == 8 then wide else []) + (if w == 4 then mid else []) + (if w == 2 then small else [])
  {
    OfWidthParts(wide + mid, small, w);
    OfWidthParts(wide, mid, w);
    OfWidthUniform(wide, 8, w);
    OfWidthUniform(mid, 4, w);
    OfWidthUniform(small, 2, w);
  }

  lemma WidthsOfParts(wide: seq<Int>, mid: seq<Int>, small: seq<Int>)
    requires forall i :: i in wide ==> i.byteW == 8
    requires forall i :: i in mid ==> i.byteW == 4
    requires forall i :: i in small ==> i.byteW == 2
    ensures OfWidth(wide + mid + small, 8) == wide
    ensures OfWidth(wide + mid + small, 4) == mid
    ensures OfWidth(wide + mid + small, 2) == small
  {
    WidthOfParts(wide, mid, small, 8);
    WidthOfParts(wide, mid, small, 4);
    WidthOfParts(wide, mid, small, 2);
  }

  /** What one pass adds passes again. */
  lemma PassAdds(kept: seq<Int>, todo: seq<Int>) returns (more: seq<Int>)
    ensures Greedy(kept, todo) == kept + more == Greedy(kept, more)
    ensures forall i :: i in more ==> i in todo
  {
    GreedyExtends(kept, todo);
    GreedyAdds(kept, todo);
    more := Greedy(kept, todo)[|kept|..];
    assert Greedy(kept, todo) == kept + more;
    GreedyKeepsAll(kept, more);
  }

  /** Deduplicating a deduplicated list changes nothing. */
  lemma DedupedTwice(ints: seq<Int>)
    ensures Deduped(Deduped(ints)) == Deduped(ints)
  {
    var wide := OfWidth(ints, 8);
    var m := PassAdds(wide, OfWidth(ints, 4));
    var s := PassAdds(wide + m, OfWidth(ints, 2));
    WidthsOfParts(wide, m, s);
  }

  lemma {:induction false} GreedyAdds(kept: seq<Int>, todo: seq<Int>)
    ensures |kept| <= |Greedy(kept, todo)|
    ensures forall i :: i in Greedy(kept, todo)[|kept|..] ==> i in todo
    decreases |todo|
  {
    if todo != [] {
      if Blocked(kept, todo[0]) {
        GreedyAdds(kept, todo[1..]);
      } else {
        var more := kept + [todo[0]];
        GreedyAdds(more, todo[1..]);
        GreedyExtends(more, todo[1..]);
        var all := Greedy(kept, todo);
        assert all[|kept|..] == [todo[0]] + all[|more|..];
      }
    }
  }

  /** `belm[p]` lists exactly the raw values of the kept integers that cover byte `p`. */
  ghost predicate Indexes(belm: seq<seq<nat>>, kept: seq<Int>) {
    forall p, v :: 0 <= p < |belm| ==> (v in belm[p] <==> exists k :: k in kept && k.valU == v && Covers(k, p))
  }

  ghost predicate Fits(ints: seq<Int>, size: nat) {
    forall i :: i in ints ==> i.End() <= size
  }

  method Register(belm: array<seq<nat>>, j: Int, ghost kept: seq<Int>)
    requires j.End() <= belm.Length && Indexes(belm[..], kept)
    modifies belm
    ensures Indexes(belm[..], kept + [j])
  {
    ghost var was := belm[..];
    for i := j.pos to j.End()
      invariant forall p :: 0 <= p < belm.Length ==>
                  belm[p] == if j.pos <= p < i then was[p] + [j.valU] else was[p]
    {
      belm[i] := belm[i] + [j.valU];
    }
    forall p, v | 0 <= p < belm.Length
      ensures v in belm[p] <==> exists k :: k in kept + [j] && k.valU == v && Covers(k, p)
    {
      assert v in belm[p] <==> v in was[p] || (v == j.valU && Covers(j, p));
      if v in was[p] {
        var k :| k in kept && k.valU == v && Covers(k, p);
        assert k in kept + [j];
      } else if v in belm[p] {
        assert j in kept + [j];
      }
    }
  }

  /** One pass over the integers of one width. */
  method KeepUnblocked(belm: array<seq<nat>>, kept: seq<Int>, todo: seq<Int>) returns (newints: seq<Int>)
    requires Fits(todo, belm.Length) && Indexes(belm[..], kept)
    requires forall i :: i in todo ==> 0 < i.byteW
    modifies belm
    ensures newints == Greedy(kept, todo)
    ensures Indexes(belm[..], newints)
  {
    newints := kept;
    for n := 0 to |todo|
      invariant Greedy(kept, todo) == Greedy(newints, todo[n..])
      invariant Indexes(belm[..], newints)
    {
      var j := todo[n];
      assert j in todo && j == todo[n..][0] && todo[n..][1..] == todo[n + 1..];
      var blocked := false;
      for k := 0 to |belm[j.pos]|
        invariant blocked <==> j.valU in belm[j.pos][..k]
      {
        if belm[j.pos][k] == j.valU {
          blocked := true;
        }
      }
      assert belm[j.pos][..|belm[j.pos]|] == belm[j.pos] == belm[..][j.pos];
      assert blocked <==> Blocked(newints, j);
      if !blocked {
        Register(belm, j, newints);
        newints := newints + [j];
      }
    }
  }

  /** The pass over the 8-byte integers, which are all kept. */
  method KeepAll(belm: array<seq<nat>>, wide: seq<Int>) returns (newints: seq<Int>)
    requires Fits(wide, belm.Length) && Indexes(belm[..], [])
    modifies belm
    ensures newints == wide && Indexes(belm[..], newints)
  {
    newints := [];
    for n := 0 to |wide|
      invariant newints == wide[..n]
      invariant Indexes(belm[..], newints)
    {
      assert wide[n] in wide;
      Register(belm, wide[n], newints);
      newints := newints + [wide[n]];
    }
    assert wide[..|wide|] == wide;
  }

  /** The deduplication block of `ScanInts`: the index answers as the quadratic check. */
  method Deduplicate(ints: seq<Int>, size: nat) returns (newints: seq<Int>)
    requires Fits(ints, size)
    ensures newints == Deduped(ints)
  {
    var belm := new seq<nat>[size](_ => []);
    var pass := SelectWidth(ints, 8);
    newints := KeepAll(belm, pass);
    pass := SelectWidth(ints, 4);
    newints := KeepUnblocked(belm, newints, pass);
    pass := SelectWidth(ints, 2);
    newints := KeepUnblocked(belm, newints, pass);
  }
}
