/**
 * Sums and means over exact reals (the source uses floating point; see
 * README), and the z-score rule of `zscore`: each value minus the column
 * mean, divided by the population standard deviation, with a standard
 * deviation of zero replaced by 1.0.
 */
module Stats {

  /** The sum, accumulated left to right. */
  function Sum(xs: seq<real>): real {
    if xs == [] then 0.0 else Sum(xs[..|xs| - 1]) + xs[|xs| - 1]
  }

  function Mean(xs: seq<real>): real
    requires xs != []
  {
    Sum(xs) / (|xs| as real)
  }

  /** A sum of values between `lo` and `hi` lies between `n * lo` and `n * hi`. */
  lemma {:induction false} SumBounds(xs: seq<real>, lo: real, hi: real)
    requires forall i :: 0 <= i < |xs| ==> lo <= xs[i] <= hi
    ensures (|xs| as real) * lo <= Sum(xs) <= (|xs| as real) * hi
  {
    if xs != [] {
      SumBounds(xs[..|xs| - 1], lo, hi);
    }
  }

  /** A mean lies between the smallest and the largest value averaged. */
  lemma MeanBounds(xs: seq<real>, lo: real, hi: real)
    requires xs != []
    requires forall i :: 0 <= i < |xs| ==> lo <= xs[i] <= hi
    ensures lo <= Mean(xs) <= hi
  {
    SumBounds(xs, lo, hi);
    var n := |xs| as real;
    assert n * lo <= Sum(xs) <= n * hi;
    assert lo == (n * lo) / n && hi == (n * hi) / n;
  }

  /** The mean of a constant column is that constant. */
  lemma MeanConstant(xs: seq<real>, c: real)
    requires xs != []
    requires forall i :: 0 <= i < |xs| ==> xs[i] == c
    ensures Mean(xs) == c
  {
    MeanBounds(xs, c, c);
  }

  lemma {:induction false} SumAppend(a: seq<real>, b: seq<real>)
    ensures Sum(a + b) == Sum(a) + Sum(b)
  {
    if b == [] {
      assert a + b == a;
    } else {
      var n := |b| - 1;
      assert (a + b)[..|a + b| - 1] == a + b[..n];
      SumAppend(a, b[..n]);
    }
  }

  /**
   * The last element of `xs` sits at some position `j` of its permutation
   * `ys`; without it, the two are still permutations of each other.
   */
  lemma PermutationLast<T>(xs: seq<T>, ys: seq<T>) returns (j: nat)
    requires xs != [] && multiset(xs) == multiset(ys)
    ensures j < |ys| && ys[j] == xs[|xs| - 1]
    ensures ys == ys[..j] + [ys[j]] + ys[j + 1..]
    ensures multiset(xs[..|xs| - 1]) == multiset(ys[..j] + ys[j + 1..])
  {
    var n := |xs| - 1;
    var x := xs[n];
    assert xs == xs[..n] + [x];
    assert x in multiset(ys);
    j :| 0 <= j < |ys| && ys[j] == x;
    var rest := ys[..j] + ys[j + 1..];
    assert ys == ys[..j] + [x] + ys[j + 1..];
    assert multiset(ys) == multiset(ys[..j]) + multiset{x} + multiset(ys[j + 1..]);
    assert multiset(rest) == multiset(ys[..j]) + multiset(ys[j + 1..]);
    assert multiset(rest) == multiset(ys) - multiset{x};
    assert multiset(xs[..n]) == multiset(xs) - multiset{x};
  }

  /** The sum does not depend on the order of the values. */
  lemma {:induction false} SumPermutation(xs: seq<real>, ys: seq<real>)
    requires multiset(xs) == multiset(ys)
    ensures Sum(xs) == Sum(ys)
  {
    if xs == [] {
      assert |ys| == |multiset(ys)|;
    } else {
      var n := |xs| - 1;
      var x := xs[n];
      assert xs == xs[..n] + [x];
      assert x in multiset(ys);
      var j :| 0 <= j < |ys| && ys[j] == x;
      var rest := ys[..j] + ys[j + 1..];
      assert ys == ys[..j] + [x] + ys[j + 1..];
      assert multiset(ys) == multiset(ys[..j]) + multiset{x} + multiset(ys[j + 1..]);
      assert multiset(xs) == multiset(xs[..n]) + multiset{x};
      assert multiset(rest) == multiset(ys[..j]) + multiset(ys[j + 1..]);
      assert multiset(rest) == multiset(ys) - multiset{x};
      assert multiset(xs[..n]) == multiset(xs) - multiset{x};
      SumPermutation(xs[..n], rest);
      SumAppend(ys[..j] + [x], ys[j + 1..]);
      SumAppend(ys[..j], [x]);
      SumAppend(ys[..j], ys[j + 1..]);
      assert Sum([x]) == x by {
        assert [x][..0] == [];
      }
    }
  }

  /** The mean does not depend on the order of the values. */
  lemma MeanPermutation(xs: seq<real>, ys: seq<real>)
    requires xs != [] && multiset(xs) == multiset(ys)
    ensures ys != [] && Mean(xs) == Mean(ys)
  {
    assert |xs| == |multiset(xs)| == |multiset(ys)| == |ys|;
    SumPermutation(xs, ys);
  }

  /** `std` as `zscore` divides by it: a zero standard deviation becomes 1.0. */
  function Divisor(std: real): (d: real)
    requires std >= 0.0
    ensures d > 0.0
    ensures std > 0.0 ==> d == std
    ensures std == 0.0 ==> d == 1.0
  {
    if std == 0.0 then 1.0 else std
  }

  /** `(x - m) / d` for every `x` of `xs`. */
  function Shifted(xs: seq<real>, m: real, d: real): (r: seq<real>)
    requires d > 0.0
    ensures |r| == |xs|
    ensures forall i :: 0 <= i < |xs| ==> r[i] == (xs[i] - m) / d
  {
    seq(|xs|, i requires 0 <= i < |xs| => (xs[i] - m) / d)
  }

  lemma {:induction false} SumShifted(xs: seq<real>, m: real, d: real)
    requires d > 0.0
    ensures Sum(Shifted(xs, m, d)) == (Sum(xs) - (|xs| as real) * m) / d
  {
    if xs != [] {
      var n := |xs| - 1;
      assert Shifted(xs, m, d)[..n] == Shifted(xs[..n], m, d);
      SumShifted(xs[..n], m, d);
    }
  }

  /**
   * `zscore` of a column, where `std` is the column's population standard
   * deviation (a square root, supplied by the caller).
   */
  function ZScore(xs: seq<real>, std: real): (z: seq<real>)
    requires xs != [] && std >= 0.0
    ensures |z| == |xs|
    ensures forall i :: 0 <= i < |xs| ==> z[i] == (xs[i] - Mean(xs)) / Divisor(std)
  {
    Shifted(xs, Mean(xs), Divisor(std))
  }

  /** The z-scores of a column sum to zero, so their mean is zero. */
  lemma ZScoreSumZero(xs: seq<real>, std: real)
    requires xs != [] && std >= 0.0
    ensures Sum(ZScore(xs, std)) == 0.0
  {
    SumShifted(xs, Mean(xs), Divisor(std));
    var n := |xs| as real;
    assert n * (Sum(xs) / n) == Sum(xs);
  }

  /** A column of identical values scores all zeros, whatever its standard deviation. */
  lemma ZScoreConstant(xs: seq<real>, std: real)
    requires xs != [] && std >= 0.0
    requires forall i :: 0 <= i < |xs| ==> xs[i] == xs[0]
    ensures forall i :: 0 <= i < |xs| ==> ZScore(xs, std)[i] == 0.0
  {
    MeanConstant(xs, xs[0]);
  }

  /** Z-scoring keeps the order of the values within a column. */
  lemma ZScoreMonotone(xs: seq<real>, std: real, i: int, j: int)
    requires xs != [] && std >= 0.0
    requires 0 <= i < |xs| && 0 <= j < |xs| && xs[i] <= xs[j]
    ensures ZScore(xs, std)[i] <= ZScore(xs, std)[j]
  {
    var m, d := Mean(xs), Divisor(std);
    assert (xs[i] - m) / d <= (xs[j] - m) / d;
  }
}
