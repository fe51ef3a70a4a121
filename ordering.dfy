/**
 * Sorted sets of keys. pandas' `pivot_table` and `groupby` both return their
 * group keys sorted and without repetition; this module builds such a
 * sequence for any strict total order.
 */
module Ordering {
  import Text

  ghost predicate StrictTotalOrder<T(!new)>(less: (T, T) -> bool) {
    && (forall a :: !less(a, a))
    && (forall a, b, c :: less(a, b) && less(b, c) ==> less(a, c))
    && (forall a, b :: a != b ==> less(a, b) || less(b, a))
  }

  predicate StrictlySorted<T>(less: (T, T) -> bool, xs: seq<T>) {
    forall i, j :: 0 <= i < j < |xs| ==> less(xs[i], xs[j])
  }

  /** Adds `x` to a strictly sorted sequence unless it is already there. */
  function Insert<T(==,!new)>(less: (T, T) -> bool, xs: seq<T>, x: T): (r: seq<T>)
    requires StrictTotalOrder(less) && StrictlySorted(less, xs)
    ensures StrictlySorted(less, r)
    ensures forall y :: y in r <==> y in xs || y == x
  {
    if xs == [] then [x]
    else if x == xs[0] then xs
    else if less(x, xs[0]) then [x] + xs
    else
      var tail := Insert(less, xs[1..], x);
      assert forall y :: y in tail ==> less(xs[0], y);
      [xs[0]] + tail
  }

  /** The distinct elements of `xs` in ascending order. */
  function SortedDistinct<T(==,!new)>(less: (T, T) -> bool, xs: seq<T>): (r: seq<T>)
    requires StrictTotalOrder(less)
    ensures StrictlySorted(less, r)
    ensures forall y :: y in r <==> y in xs
  {
    if xs == [] then []
    else Insert(less, SortedDistinct(less, xs[..|xs| - 1]), xs[|xs| - 1])
  }

  /** Two strictly sorted sequences with the same elements are the same sequence. */
  lemma {:induction false} SortedUnique<T(!new)>(less: (T, T) -> bool, xs: seq<T>, ys: seq<T>)
    requires StrictTotalOrder(less)
    requires StrictlySorted(less, xs) && StrictlySorted(less, ys)
    requires forall y :: y in xs <==> y in ys
    ensures xs == ys
  {
    if xs != [] || ys != [] {
      assert xs != [] && ys != [] by {
        if xs != [] {
          assert xs[0] in ys;
        }
        if ys != [] {
          assert ys[0] in xs;
        }
      }
      assert xs[0] == ys[0] by {
        assert ys[0] in xs && xs[0] in ys;
      }
      forall y
        ensures y in xs[1..] <==> y in ys[1..]
      {
        if y in xs[1..] {
          var k :| 0 <= k < |xs[1..]| && xs[1..][k] == y;
          assert less(xs[0], xs[k + 1]);
          assert xs[k + 1] in xs;
          var m :| 0 <= m < |ys| && ys[m] == y;
          assert m != 0;
          assert ys[1..][m - 1] == y;
        }
        if y in ys[1..] {
          var k :| 0 <= k < |ys[1..]| && ys[1..][k] == y;
          assert less(ys[0], ys[k + 1]);
          assert ys[k + 1] in ys;
          var m :| 0 <= m < |xs| && xs[m] == y;
          assert m != 0;
          assert xs[1..][m - 1] == y;
        }
      }
      SortedUnique(less, xs[1..], ys[1..]);
      assert xs == [xs[0]] + xs[1..] && ys == [ys[0]] + ys[1..];
    }
  }

  /** Python's string comparison is a strict total order. */
  lemma StrLessIsStrictTotalOrder()
    ensures StrictTotalOrder(Text.StrLess)
  {
    forall a {:trigger Text.StrLess(a, a)}
      ensures !Text.StrLess(a, a)
    {
      Text.StrLessIrreflexive(a);
    }
    forall a, b, c | Text.StrLess(a, b) && Text.StrLess(b, c)
      ensures Text.StrLess(a, c)
    {
      Text.StrLessTransitive(a, b, c);
    }
    forall a, b | a != b
      ensures Text.StrLess(a, b) || Text.StrLess(b, a)
    {
      Text.StrLessTotal(a, b);
    }
  }
}
