/** Finite sets and sequences. */
module Collections {
  lemma SubsetSize<T>(a: set<T>, b: set<T>)
    ensures a <= b ==> |a| <= |b| && (|a| == |b| ==> a == b)
  {
    if a <= b {
      assert b == a + (b - a);
      assert |b| == |a| + |b - a|;
    }
  }

  /** `ys` lists the elements of `xs` at the positions `at`, in order. */
  ghost predicate Selects<T>(xs: seq<T>, at: seq<nat>, ys: seq<T>) {
    && |at| == |ys|
    && (forall k :: 0 <= k < |at| ==> at[k] < |xs| && ys[k] == xs[at[k]])
    && (forall k, m :: 0 <= k < m < |at| ==> at[k] < at[m])
  }

  /** The positions of the elements with the property. */
  ghost predicate IsWhere<T>(xs: seq<T>, p: T -> bool, at: seq<nat>) {
    forall n :: 0 <= n < |xs| ==> (n in at <==> p(xs[n]))
  }

  /** `ys` lists all elements with the property, in order and as often as they occur. */
  ghost predicate Filters<T>(xs: seq<T>, p: T -> bool, at: seq<nat>, ys: seq<T>) {
    Selects(xs, at, ys) && IsWhere(xs, p, at)
  }

  lemma SelectsNext<T>(xs: seq<T>, n: nat, at: seq<nat>, ys: seq<T>)
    requires n == |xs| - 1 && Selects(xs[..n], at, ys)
    ensures Selects(xs, at, ys) && Selects(xs, at + [n], ys + [xs[n]])
    ensures n !in at
  {
  }

  lemma IsWhereNext<T>(xs: seq<T>, p: T -> bool, n: nat, at: seq<nat>)
    requires n == |xs| - 1 && IsWhere(xs[..n], p, at) && n !in at
    ensures IsWhere(xs, p, if p(xs[n]) then at + [n] else at)
  {
    var at' := if p(xs[n]) then at + [n] else at;
    forall k | 0 <= k < |xs| ensures k in at' <==> p(xs[k]) {
      assert k in at' <==> k in at || (k == n && p(xs[n]));
      if k < n {
        assert xs[..n][k] == xs[k];
      }
    }
  }

  /** One more element, which is taken if it has the property. */
  lemma FiltersNext<T>(xs: seq<T>, p: T -> bool, n: nat, at: seq<nat>, ys: seq<T>) returns (at': seq<nat>)
    requires n == |xs| - 1 && Filters(xs[..n], p, at, ys)
    ensures Filters(xs, p, at', if p(xs[n]) then ys + [xs[n]] else ys)
  {
    SelectsNext(xs, n, at, ys);
    IsWhereNext(xs, p, n, at);
    at' := if p(xs[n]) then at + [n] else at;
  }
}
