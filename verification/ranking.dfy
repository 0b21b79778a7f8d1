/** Ordering a finite set: the extremes of a set of integers (SQL `MIN`/`MAX`) and
    `ORDER BY ... LIMIT n` over a set of keys, for any total preorder. Where the order
    ties, SQL leaves the row order open; so does `Rank`, whose contract is all that
    a caller may rely on. */
module Ranking {

  /** Some element of a non-empty set. */
  ghost function Pick<T>(s: set<T>): (x: T)
    requires s != {}
    ensures x in s
  {
    var x :| x in s;
    x
  }

  ghost function Least(s: set<int>): (m: int)
    requires s != {}
    ensures m in s && forall x :: x in s ==> m <= x
    decreases s
  {
    var x := Pick(s);
    if s == {x} then x
    else
      var m := Least(s - {x});
      assert forall y :: y in s ==> y == x || y in s - {x};
      if x <= m then x else m
  }

  ghost function Greatest(s: set<int>): (m: int)
    requires s != {}
    ensures m in s && forall x :: x in s ==> x <= m
    decreases s
  {
    var x := Pick(s);
    if s == {x} then x
    else
      var m := Greatest(s - {x});
      assert forall y :: y in s ==> y == x || y in s - {x};
      if x >= m then x else m
  }

  /** `above(a, b)`: `a` may come before `b`. Every two keys compare, transitively. */
  ghost predicate TotalPreorder<T(!new)>(above: (T, T) -> bool) {
    && (forall a, b :: above(a, b) || above(b, a))
    && (forall a, b, c :: above(a, b) && above(b, c) ==> above(a, c))
  }

  /** A first element of `s` under `above`. */
  ghost function Top<T(!new)>(s: set<T>, above: (T, T) -> bool): (m: T)
    requires s != {} && TotalPreorder(above)
    ensures m in s && forall x :: x in s ==> above(m, x)
    decreases s
  {
    var x := Pick(s);
    if s == {x} then
      assert above(x, x);
      x
    else
      var m := Top(s - {x}, above);
      assert forall y :: y in s ==> y == x || y in s - {x};
      if above(x, m) then x else m
  }

  /** `ORDER BY above LIMIT limit` over the keys `s`: at most `limit` distinct keys of
      `s`, in order, each coming before every key left out. */
  ghost function Rank<T(!new)>(s: set<T>, above: (T, T) -> bool, limit: nat): (r: seq<T>)
    requires TotalPreorder(above)
    ensures |r| == if limit < |s| then limit else |s|
    ensures forall i :: 0 <= i < |r| ==> r[i] in s
    ensures forall i, j :: 0 <= i < j < |r| ==> r[i] != r[j]
    ensures forall i, j :: 0 <= i < j < |r| ==> above(r[i], r[j])
    ensures forall i, x :: 0 <= i < |r| && x in s && x !in r ==> above(r[i], x)
    decreases limit
  {
    if limit == 0 || s == {} then []
    else
      var m := Top(s, above);
      var rest := Rank(s - {m}, above, limit - 1);
      var r := [m] + rest;
      assert forall i :: 1 <= i < |r| ==> r[i] == rest[i - 1];
      r
  }

  /** Without a binding limit, ranking lists the whole set. */
  lemma RankAll<T(!new)>(s: set<T>, above: (T, T) -> bool, limit: nat)
    requires TotalPreorder(above) && |s| <= limit
    ensures forall x :: x in s <==> x in Rank(s, above, limit)
  {
    var r := Rank(s, above, limit);
    var rs := set i | 0 <= i < |r| :: r[i];
    assert rs <= s;
    DistinctCard(r);
    forall x | x in s
      ensures x in r
    {
      if x !in r {
        assert rs <= s - {x};
        SubsetCard(rs, s - {x});
        assert false;
      }
    }
  }

  /** A subset is no larger than its superset. */
  lemma {:induction false} SubsetCard<T>(a: set<T>, b: set<T>)
    requires a <= b
    ensures |a| <= |b|
    decreases a
  {
    if a != {} {
      var x :| x in a;
      SubsetCard(a - {x}, b - {x});
    }
  }

  /** A sequence of distinct elements has as many elements as its set. */
  lemma {:induction false} DistinctCard<T>(r: seq<T>)
    requires forall i, j :: 0 <= i < j < |r| ==> r[i] != r[j]
    ensures |set i | 0 <= i < |r| :: r[i]| == |r|
    decreases |r|
  {
    if r != [] {
      var t := r[..|r| - 1];
      DistinctCard(t);
      var st := set i | 0 <= i < |t| :: t[i];
      var sr := set i | 0 <= i < |r| :: r[i];
      assert sr == st + {r[|r| - 1]};
      assert r[|r| - 1] !in st;
    }
  }
}
