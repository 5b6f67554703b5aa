/** Filtering, mapping and sorting rows. Predicates and orders are passed as values;
    callers build them with named functions so that equal arguments give equal terms. */
module Sequences {

  function Filter<T>(xs: seq<T>, keep: T -> bool): seq<T> {
    if xs == [] then [] else
      var n := |xs| - 1;
      Filter(xs[..n], keep) + (if keep(xs[n]) then [xs[n]] else [])
  }

  function Map<T, U>(xs: seq<T>, f: T -> U): (ys: seq<U>)
    ensures |ys| == |xs|
    ensures forall i :: 0 <= i < |xs| ==> ys[i] == f(xs[i])
  {
    seq(|xs|, i requires 0 <= i < |xs| => f(xs[i]))
  }

  function Last<T>(xs: seq<T>): T
    requires xs != []
  {
    xs[|xs| - 1]
  }

  lemma FilterMember<T>(xs: seq<T>, keep: T -> bool, x: T)
    ensures x in Filter(xs, keep) <==> x in xs && keep(x)
  {
    if xs != [] {
      var n := |xs| - 1;
      FilterMember(xs[..n], keep, x);
      assert xs == xs[..n] + [xs[n]];
    }
  }

  lemma {:induction false} FilterAppend<T>(xs: seq<T>, ys: seq<T>, keep: T -> bool)
    ensures Filter(xs + ys, keep) == Filter(xs, keep) + Filter(ys, keep)
  {
    if ys == [] {
      assert xs + ys == xs;
    } else {
      var n := |ys| - 1;
      FilterAppend(xs, ys[..n], keep);
      assert (xs + ys)[..|xs| + n] == xs + ys[..n];
    }
  }

  /** One more row at the end. */
  lemma FilterSnoc<T>(xs: seq<T>, x: T, keep: T -> bool)
    ensures Filter(xs + [x], keep) == Filter(xs, keep) + (if keep(x) then [x] else [])
  {
    assert (xs + [x])[..|xs|] == xs;
  }

  lemma {:induction false} FilterNone<T>(xs: seq<T>, keep: T -> bool)
    requires forall i :: 0 <= i < |xs| ==> !keep(xs[i])
    ensures Filter(xs, keep) == []
  {
    if xs != [] {
      FilterNone(xs[..|xs| - 1], keep);
    }
  }

  lemma {:induction false} FilterAll<T>(xs: seq<T>, keep: T -> bool)
    requires forall i :: 0 <= i < |xs| ==> keep(xs[i])
    ensures Filter(xs, keep) == xs
  {
    if xs != [] {
      var n := |xs| - 1;
      FilterAll(xs[..n], keep);
      assert xs == xs[..n] + [xs[n]];
    }
  }

  /** Filters that agree on the rows present give the same rows. */
  lemma {:induction false} FilterAgree<T>(xs: seq<T>, keep: T -> bool, keep': T -> bool)
    requires forall i :: 0 <= i < |xs| ==> keep(xs[i]) == keep'(xs[i])
    ensures Filter(xs, keep) == Filter(xs, keep')
  {
    if xs != [] {
      FilterAgree(xs[..|xs| - 1], keep, keep');
    }
  }

  /** Dropping rows that a later filter would drop anyway changes nothing. */
  lemma {:induction false} FilterFilter<T>(xs: seq<T>, first: T -> bool, second: T -> bool)
    requires forall i :: 0 <= i < |xs| && second(xs[i]) ==> first(xs[i])
    ensures Filter(Filter(xs, first), second) == Filter(xs, second)
  {
    if xs != [] {
      var n := |xs| - 1;
      FilterFilter(xs[..n], first, second);
      FilterAppend(Filter(xs[..n], first), if first(xs[n]) then [xs[n]] else [], second);
      FilterSnoc([], xs[n], second);
    }
  }

  lemma {:induction false} FilterCommutes<T>(xs: seq<T>, f: T -> bool, g: T -> bool)
    ensures Filter(Filter(xs, f), g) == Filter(Filter(xs, g), f)
  {
    if xs != [] {
      var n := |xs| - 1;
      FilterCommutes(xs[..n], f, g);
      FilterSnoc(Filter(xs[..n], f), xs[n], g);
      FilterSnoc(Filter(xs[..n], g), xs[n], f);
      assert Filter(xs[..n], f) + [] == Filter(xs[..n], f);
      assert Filter(xs[..n], g) + [] == Filter(xs[..n], g);
    }
  }

  function Both<T>(f: T -> bool, g: T -> bool): T -> bool {
    (x: T) => f(x) && g(x)
  }

  lemma {:induction false} FilterBoth<T>(xs: seq<T>, f: T -> bool, g: T -> bool)
    ensures Filter(Filter(xs, f), g) == Filter(xs, Both(f, g))
  {
    if xs != [] {
      var n := |xs| - 1;
      FilterBoth(xs[..n], f, g);
      FilterSnoc(Filter(xs[..n], f), xs[n], g);
      assert Filter(xs[..n], f) + [] == Filter(xs[..n], f);
    }
  }

  /** Filtering mapped rows is mapping filtered rows. */
  lemma {:induction false} FilterMapCount<T, U>(xs: seq<T>, f: T -> U, keep: U -> bool, keep': T -> bool)
    requires forall i :: 0 <= i < |xs| ==> keep(f(xs[i])) == keep'(xs[i])
    ensures |Filter(Map(xs, f), keep)| == |Filter(xs, keep')|
  {
    if xs != [] {
      var n := |xs| - 1;
      FilterMapCount(xs[..n], f, keep, keep');
      assert Map(xs, f)[..n] == Map(xs[..n], f);
    }
  }

  /** A filter counts the rows it keeps exactly as often as the table holds them. */
  lemma {:induction false} FilterMultiplicity<T>(xs: seq<T>, keep: T -> bool, x: T)
    ensures multiset(Filter(xs, keep))[x] == if keep(x) then multiset(xs)[x] else 0
  {
    if xs != [] {
      var n := |xs| - 1;
      FilterMultiplicity(xs[..n], keep, x);
      assert xs == xs[..n] + [xs[n]];
    }
  }

  /** A filter and its complement divide the rows between them. */
  lemma {:induction false} FilterSplit<T>(xs: seq<T>, keep: T -> bool, rest: T -> bool)
    requires forall i :: 0 <= i < |xs| ==> rest(xs[i]) == !keep(xs[i])
    ensures multiset(Filter(xs, keep)) + multiset(Filter(xs, rest)) == multiset(xs)
    ensures |Filter(xs, keep)| + |Filter(xs, rest)| == |xs|
  {
    if xs != [] {
      var init, x := xs[..|xs| - 1], Last(xs);
      assert xs == init + [x];
      FilterSplit(init, keep, rest);
      FilterSnoc(init, x, keep);
      FilterSnoc(init, x, rest);
      hide Filter;
      assert rest(x) == !keep(x);
      assert multiset(xs) == multiset(init) + multiset{x};
    }
  }

  lemma MapAppend<T, U>(xs: seq<T>, ys: seq<T>, f: T -> U)
    ensures Map(xs + ys, f) == Map(xs, f) + Map(ys, f)
  {
  }

  lemma MapSnoc<T, U>(xs: seq<T>, x: T, f: T -> U)
    ensures Map(xs + [x], f) == Map(xs, f) + [f(x)]
  {
  }

  /** Removing one occurrence. */
  function Without<T(==)>(xs: seq<T>, x: T): (ys: seq<T>)
    requires x in xs
    ensures |ys| == |xs| - 1
    ensures multiset(ys) == multiset(xs) - multiset{x}
  {
    var n := |xs| - 1;
    assert xs == xs[..n] + [xs[n]];
    if xs[n] == x then xs[..n] else Without(xs[..n], x) + [xs[n]]
  }

  lemma {:induction false} MapWithout<T, U>(xs: seq<T>, x: T, f: T -> U)
    requires x in xs
    ensures multiset(Map(xs, f)) == multiset(Map(Without(xs, x), f)) + multiset{f(x)}
  {
    hide Map;
    var n := |xs| - 1;
    assert xs == xs[..n] + [xs[n]];
    MapSnoc(xs[..n], xs[n], f);
    if xs[n] != x {
      MapWithout(xs[..n], x, f);
      MapSnoc(Without(xs[..n], x), xs[n], f);
    }
  }

  /** Permuting the arguments of a map permutes its results. */
  lemma {:induction false} MapPermutes<T, U>(xs: seq<T>, ys: seq<T>, f: T -> U)
    requires multiset(xs) == multiset(ys)
    ensures multiset(Map(xs, f)) == multiset(Map(ys, f))
    decreases |xs|
  {
    if xs == [] {
      assert |multiset(ys)| == |multiset(xs)| == 0;
    } else {
      var x := xs[0];
      assert x in multiset(xs);
      MapPermutes(Without(xs, x), Without(ys, x), f);
      MapWithout(xs, x, f);
      MapWithout(ys, x, f);
    }
  }

  lemma {:induction false} FilterWithout<T>(xs: seq<T>, x: T, keep: T -> bool)
    requires x in xs
    ensures multiset(Filter(xs, keep))
         == multiset(Filter(Without(xs, x), keep)) + (if keep(x) then multiset{x} else multiset{})
  {
    var n := |xs| - 1;
    assert xs == xs[..n] + [xs[n]];
    if xs[n] != x {
      FilterWithout(xs[..n], x, keep);
      FilterSnoc(Without(xs[..n], x), xs[n], keep);
    }
  }

  /** Permuting rows permutes what a filter keeps. */
  lemma {:induction false} FilterPermutes<T>(xs: seq<T>, ys: seq<T>, keep: T -> bool)
    requires multiset(xs) == multiset(ys)
    ensures multiset(Filter(xs, keep)) == multiset(Filter(ys, keep))
    ensures |Filter(xs, keep)| == |Filter(ys, keep)|
    decreases |xs|
  {
    if xs == [] {
      assert |multiset(ys)| == |multiset(xs)| == 0;
    } else {
      var x := xs[0];
      assert x in multiset(xs);
      FilterPermutes(Without(xs, x), Without(ys, x), keep);
      FilterWithout(xs, x, keep);
      FilterWithout(ys, x, keep);
      assert |multiset(Filter(xs, keep))| == |multiset(Filter(ys, keep))|;
    }
  }

  // ---- counting by position --------------------------------------------------------

  /** Where in a sequence the kept rows stand, each position behind `n`. */
  ghost function Positions<T>(n: int, xs: seq<T>, keep: T -> bool): set<(int, int)> {
    set j | 0 <= j < |xs| && keep(xs[j]) :: (n, j)
  }

  lemma PositionsSnoc<T>(n: int, xs: seq<T>, x: T, keep: T -> bool)
    ensures Positions(n, xs + [x], keep) == Positions(n, xs, keep) + if keep(x) then {(n, |xs|)} else {}
    ensures (n, |xs|) !in Positions(n, xs, keep)
  {
    var ys := xs + [x];
    assert ys[|xs|] == x && forall j :: 0 <= j < |xs| ==> ys[j] == xs[j];
  }

  /** A filter keeps as many rows as there are positions it keeps. */
  lemma {:induction false} MatchesByPosition<T>(n: int, xs: seq<T>, keep: T -> bool)
    ensures |Filter(xs, keep)| == |Positions(n, xs, keep)|
  {
    if xs == [] {
      assert Positions(n, xs, keep) == {};
    } else {
      var init, x := xs[..|xs| - 1], Last(xs);
      assert xs == init + [x];
      MatchesByPosition(n, init, keep);
      FilterSnoc(init, x, keep);
      PositionsSnoc(n, init, x, keep);
      hide Filter, Positions;
    }
  }

  // ---- sorting ---------------------------------------------------------------

  /** Put `x` behind every element that is not after it. */
  function Insert<T>(xs: seq<T>, x: T, leq: (T, T) -> bool): (ys: seq<T>)
    ensures multiset(ys) == multiset(xs) + multiset{x}
  {
    if xs == [] then [x]
    else
      var n := |xs| - 1;
      assert xs == xs[..n] + [xs[n]];
      if leq(xs[n], x) then xs + [x] else Insert(xs[..n], x, leq) + [xs[n]]
  }

  /** A stable sort, the model of ORDER BY and of Kotlin's `sorted`. */
  function Sort<T>(xs: seq<T>, leq: (T, T) -> bool): (ys: seq<T>)
    ensures multiset(ys) == multiset(xs)
  {
    if xs == [] then []
    else
      var n := |xs| - 1;
      assert xs == xs[..n] + [xs[n]];
      Insert(Sort(xs[..n], leq), xs[n], leq)
  }

  ghost predicate TotalOrder<T(!new)>(leq: (T, T) -> bool) {
    (forall x, y :: leq(x, y) || leq(y, x)) && (forall x, y, z :: leq(x, y) && leq(y, z) ==> leq(x, z))
  }

  ghost predicate Antisymmetric<T(!new)>(leq: (T, T) -> bool) {
    forall x, y :: leq(x, y) && leq(y, x) ==> x == y
  }

  ghost predicate Ordered<T>(xs: seq<T>, leq: (T, T) -> bool) {
    forall i, j :: 0 <= i < j < |xs| ==> leq(xs[i], xs[j])
  }

  lemma Comparable<T(!new)>(leq: (T, T) -> bool, x: T, y: T)
    requires TotalOrder(leq)
    ensures leq(x, y) || leq(y, x)
  {
  }

  lemma Chained<T(!new)>(leq: (T, T) -> bool, x: T, y: T, z: T)
    requires TotalOrder(leq) && leq(x, y) && leq(y, z)
    ensures leq(x, z)
  {
  }

  lemma {:induction false} InsertOrdered<T(!new)>(xs: seq<T>, x: T, leq: (T, T) -> bool)
    requires TotalOrder(leq) && Ordered(xs, leq)
    ensures Ordered(Insert(xs, x, leq), leq)
  {
    hide TotalOrder;
    if xs != [] {
      var n := |xs| - 1;
      if leq(xs[n], x) {
        forall i | 0 <= i < |xs| ensures leq(xs[i], x) {
          if i < n {
            Chained(leq, xs[i], xs[n], x);
          }
        }
      } else {
        InsertOrdered(xs[..n], x, leq);
        Comparable(leq, xs[n], x);
        InsertBelow(xs[..n], x, xs[n], leq);
      }
    }
  }

  /** What lies below a bound stays below it. */
  lemma InsertBelow<T>(xs: seq<T>, x: T, bound: T, leq: (T, T) -> bool)
    requires leq(x, bound) && forall i :: 0 <= i < |xs| ==> leq(xs[i], bound)
    ensures forall i :: 0 <= i < |Insert(xs, x, leq)| ==> leq(Insert(xs, x, leq)[i], bound)
  {
    var ys := Insert(xs, x, leq);
    forall i | 0 <= i < |ys| ensures leq(ys[i], bound) {
      assert ys[i] in multiset(ys);
      assert ys[i] in multiset(xs) || ys[i] == x;
    }
  }

  lemma {:induction false} SortOrdered<T(!new)>(xs: seq<T>, leq: (T, T) -> bool)
    requires TotalOrder(leq)
    ensures Ordered(Sort(xs, leq), leq)
  {
    if xs != [] {
      SortOrdered(xs[..|xs| - 1], leq);
      InsertOrdered(Sort(xs[..|xs| - 1], leq), xs[|xs| - 1], leq);
    }
  }

  /** The last of an ordered sequence is above everything in it. */
  lemma LastIsAbove<T(!new)>(xs: seq<T>, x: T, leq: (T, T) -> bool)
    requires xs != [] && Ordered(xs, leq) && x in xs
    ensures x == Last(xs) || leq(x, Last(xs))
  {
    var j :| 0 <= j < |xs| && xs[j] == x;
  }

  /** No two of the rows stand level. */
  ghost predicate StrictOn<T(!new)>(xs: seq<T>, leq: (T, T) -> bool) {
    forall x, y :: x in xs && y in xs && leq(x, y) && leq(y, x) ==> x == y
  }

  lemma LastsAgree<T(!new)>(xs: seq<T>, ys: seq<T>, leq: (T, T) -> bool)
    requires StrictOn(xs, leq) && Ordered(xs, leq) && Ordered(ys, leq)
    requires xs != [] && ys != [] && multiset(xs) == multiset(ys)
    ensures Last(xs) == Last(ys)
  {
    assert Last(xs) in multiset(ys) && Last(ys) in multiset(xs);
    LastIsAbove(xs, Last(ys), leq);
    LastIsAbove(ys, Last(xs), leq);
  }

  lemma WithoutLast<T>(xs: seq<T>)
    requires xs != []
    ensures xs == xs[..|xs| - 1] + [Last(xs)]
    ensures multiset(xs[..|xs| - 1]) == multiset(xs) - multiset{Last(xs)}
  {
    assert xs == xs[..|xs| - 1] + [Last(xs)];
  }

  /** There is only one ordered arrangement of a multiset whose rows never stand level. */
  lemma {:induction false} OrderedUnique<T(!new)>(xs: seq<T>, ys: seq<T>, leq: (T, T) -> bool)
    requires StrictOn(xs, leq)
    requires Ordered(xs, leq) && Ordered(ys, leq)
    requires multiset(xs) == multiset(ys)
    ensures xs == ys
  {
    assert |multiset(xs)| == |multiset(ys)|;
    if xs != [] {
      LastsAgree(xs, ys, leq);
      WithoutLast(xs);
      WithoutLast(ys);
      OrderedUnique(xs[..|xs| - 1], ys[..|ys| - 1], leq);
    }
  }

  /** So sorting forgets the order it was given, and nothing else. */
  lemma SortCanonical<T(!new)>(xs: seq<T>, ys: seq<T>, leq: (T, T) -> bool)
    requires TotalOrder(leq) && Antisymmetric(leq)
    ensures Sort(xs, leq) == Sort(ys, leq) <==> multiset(xs) == multiset(ys)
  {
    SortOrdered(xs, leq);
    SortOrdered(ys, leq);
    if multiset(xs) == multiset(ys) {
      OrderedUnique(Sort(xs, leq), Sort(ys, leq), leq);
    }
  }

  /** Nor does it where rows never stand level, whatever the order does elsewhere. */
  lemma SortAgrees<T(!new)>(xs: seq<T>, ys: seq<T>, leq: (T, T) -> bool)
    requires TotalOrder(leq) && StrictOn(xs, leq) && multiset(xs) == multiset(ys)
    ensures Sort(xs, leq) == Sort(ys, leq)
  {
    SortOrdered(xs, leq);
    SortOrdered(ys, leq);
    hide TotalOrder;
    forall x | x in Sort(xs, leq) ensures x in xs {
      assert x in multiset(Sort(xs, leq));
    }
    OrderedUnique(Sort(xs, leq), Sort(ys, leq), leq);
  }
}
