/** The float64 values the aggregates produce, kept exact: a finite value
    as a real, positive infinity, or NaN (pandas' missing value). Every
    number in this table is non-negative, so negative infinity never arises. */
module Numbers {

  datatype Num = Fin(v: real) | PosInf | NaN

  /** Sum of the finite entries. */
  function FinSum(xs: seq<Num>): real
  {
    if xs == [] then 0.0
    else (if xs[0].Fin? then xs[0].v else 0.0) + FinSum(xs[1..])
  }

  /** Number of finite entries. */
  function FinCount(xs: seq<Num>): nat
  {
    if xs == [] then 0
    else (if xs[0].Fin? then 1 else 0) + FinCount(xs[1..])
  }

  /** Bounds on the finite entries bound their sum. */
  lemma {:induction false} FinSumBounds(xs: seq<Num>, lo: real, hi: real)
    requires forall k :: 0 <= k < |xs| && xs[k].Fin? ==> lo <= xs[k].v <= hi
    ensures lo * FinCount(xs) as real <= FinSum(xs) <= hi * FinCount(xs) as real
  {
    if xs != [] {
      FinSumBounds(xs[1..], lo, hi);
    }
  }

  /** Finite entries that are all positive have a positive sum, once there is one. */
  lemma {:induction false} FinSumPositive(xs: seq<Num>)
    requires forall k :: 0 <= k < |xs| && xs[k].Fin? ==> xs[k].v > 0.0
    ensures FinSum(xs) >= 0.0
    ensures FinCount(xs) > 0 ==> FinSum(xs) > 0.0
  {
    if xs != [] {
      FinSumPositive(xs[1..]);
    }
  }

  /** Non-negative finite entries have a non-negative sum. */
  lemma {:induction false} FinSumNonNegative(xs: seq<Num>)
    requires forall k :: 0 <= k < |xs| && xs[k].Fin? ==> xs[k].v >= 0.0
    ensures FinSum(xs) >= 0.0
  {
    if xs != [] {
      FinSumNonNegative(xs[1..]);
    }
  }

  lemma {:induction false} FinSumAppend(xs: seq<Num>, ys: seq<Num>)
    ensures FinSum(xs + ys) == FinSum(xs) + FinSum(ys)
    ensures FinCount(xs + ys) == FinCount(xs) + FinCount(ys)
  {
    if xs == [] {
      assert xs + ys == ys;
    } else {
      assert (xs + ys)[0] == xs[0] && (xs + ys)[1..] == xs[1..] + ys;
      FinSumAppend(xs[1..], ys);
    }
  }

  /** A sequence with no NaN and no infinity is all finite. */
  lemma {:induction false} FinCountAll(xs: seq<Num>)
    requires NaN !in xs && PosInf !in xs
    ensures FinCount(xs) == |xs|
  {
    if xs != [] {
      assert xs[0] in xs;
      FinCountAll(xs[1..]);
    }
  }

  /** Dividing a sum of n values in [lo, hi] by n stays in [lo, hi]. */
  lemma MeanWithin(sum: real, n: nat, lo: real, hi: real)
    requires n > 0 && lo * n as real <= sum <= hi * n as real
    ensures lo <= sum / n as real <= hi
  {
    assert (sum / n as real) * n as real == sum;
  }

  /** Float mean of a window that may not skip missing values (a rolling
      window with min_periods equal to its width): NaN as soon as one entry
      is NaN, infinite as soon as one is infinite. */
  function WindowMean(w: seq<Num>): (m: Num)
    requires |w| > 0
    ensures m.NaN? <==> exists k :: 0 <= k < |w| && w[k].NaN?
    ensures m.Fin? <==> forall k :: 0 <= k < |w| ==> w[k].Fin?
    ensures m.Fin? ==> m.v * |w| as real == FinSum(w)
  {
    if NaN in w then NaN
    else if PosInf in w then PosInf
    else Fin(FinSum(w) / |w| as real)
  }

  /** `Series.mean()` with skipna: NaN entries are dropped; NaN if none is left. */
  function MeanSkipNa(xs: seq<Num>): (m: Num)
    ensures m.NaN? <==> forall k :: 0 <= k < |xs| ==> xs[k].NaN?
    ensures m.PosInf? <==> PosInf in xs
    ensures m.Fin? ==> FinCount(xs) > 0 && m.v * FinCount(xs) as real == FinSum(xs)
  {
    if forall k :: 0 <= k < |xs| ==> xs[k].NaN? then NaN
    else if PosInf in xs then PosInf
    else
      FinCountNoNaN(xs);
      Fin(FinSum(xs) / FinCount(xs) as real)
  }

  lemma {:induction false} FinCountNoNaN(xs: seq<Num>)
    requires PosInf !in xs
    requires exists k :: 0 <= k < |xs| && !xs[k].NaN?
    ensures FinCount(xs) > 0
  {
    var k :| 0 <= k < |xs| && !xs[k].NaN?;
    if k > 0 {
      assert xs[1..][k - 1] == xs[k];
      FinCountNoNaN(xs[1..]);
    }
  }

  /** A skip-NaN mean of values in (0, 1] is a value in (0, 1], or NaN when
      every entry is missing. */
  lemma MeanSkipNaUnitInterval(xs: seq<Num>)
    requires forall k :: 0 <= k < |xs| ==> xs[k].NaN? || (xs[k].Fin? && 0.0 < xs[k].v <= 1.0)
    ensures MeanSkipNa(xs).NaN? <==> forall k :: 0 <= k < |xs| ==> xs[k].NaN?
    ensures MeanSkipNa(xs).Fin? ==> 0.0 < MeanSkipNa(xs).v <= 1.0
  {
    if exists k :: 0 <= k < |xs| && !xs[k].NaN? {
      assert PosInf !in xs;
      FinCountNoNaN(xs);
      FinSumBounds(xs, 0.0, 1.0);
      FinSumPositive(xs);
      var sum, n := FinSum(xs), FinCount(xs);
      MeanWithin(sum, n, 0.0, 1.0);
      assert sum / n as real > 0.0;
      assert MeanSkipNa(xs) == Fin(sum / n as real);
    }
  }
}
