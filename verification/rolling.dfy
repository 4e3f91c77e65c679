/** Prizes per year, the average prize share per year, and their five-year
    rolling means: `groupby(by="year").count()["prize"]`,
    `groupby(by="year").agg({"share_pct": pd.Series.mean})` and
    `.rolling(window=5).mean()`. */
module Rolling {
  import opened Keys
  import opened Table
  import opened Numbers
  import opened GroupBy
  import opened Quality

  const WINDOW: nat := 5

  /** `series.rolling(window=width).mean()`: with min_periods equal to the
      width, the first width-1 entries are NaN, and so is any window that
      holds a NaN. */
  function RollingMean(s: seq<Num>, width: nat): (r: seq<Num>)
    requires width > 0
    ensures |r| == |s|
    ensures forall i :: 0 <= i < |s| && i + 1 < width ==> r[i] == NaN
  {
    seq(|s|, i requires 0 <= i < |s| => if i + 1 < width then NaN else WindowMean(s[i + 1 - width..i + 1]))
  }

  /** A full window is NaN exactly when it holds a NaN. */
  lemma RollingNaN(s: seq<Num>, width: nat)
    requires width > 0
    ensures forall i :: width - 1 <= i < |s| ==>
      (RollingMean(s, width)[i].NaN? <==> exists j :: i + 1 - width <= j <= i && s[j].NaN?)
  {
    forall i | width - 1 <= i < |s|
      ensures RollingMean(s, width)[i].NaN? <==> exists j :: i + 1 - width <= j <= i && s[j].NaN?
    {
      var lo := i + 1 - width;
      var w := s[lo..i + 1];
      assert forall j :: lo <= j <= i ==> s[j] == w[j - lo];
    }
  }

  ghost predicate AllFinite(w: seq<Num>)
  {
    forall k :: 0 <= k < |w| ==> w[k].Fin?
  }

  /** A full window of finite values averages to its sum over the width. */
  lemma FullWindow(s: seq<Num>, width: nat, i: nat)
    requires width > 0 && width - 1 <= i < |s|
    requires AllFinite(s[i + 1 - width..i + 1])
    ensures RollingMean(s, width)[i] == Fin(FinSum(s[i + 1 - width..i + 1]) / width as real)
  {
    var w := s[i + 1 - width..i + 1];
    assert NaN !in w && PosInf !in w;
  }

  /** Sliding a window by one adds the entering value and drops the leaving one. */
  lemma SlideSum(s: seq<Num>, width: nat, i: nat)
    requires width > 0 && width <= i < |s|
    requires AllFinite(s[i - width..i + 1])
    ensures s[i].Fin? && s[i - width].Fin?
    ensures FinSum(s[i + 1 - width..i + 1]) == FinSum(s[i - width..i]) + s[i].v - s[i - width].v
  {
    var all := s[i - width..i + 1];
    var before := s[i - width..i];
    var after := s[i + 1 - width..i + 1];
    assert all[width] == s[i] && all[0] == s[i - width];
    assert all == before + [s[i]];
    assert all == [s[i - width]] + after;
    FinSumAppend(before, [s[i]]);
    FinSumAppend([s[i - width]], after);
  }

  /** Once the window is full, consecutive rolling means differ by the value
      that entered minus the value that left, over the width. */
  lemma RollingSlide(s: seq<Num>, width: nat, i: nat)
    requires width > 0 && width <= i < |s|
    requires AllFinite(s[i - width..i + 1])
    ensures RollingMean(s, width)[i].Fin? && RollingMean(s, width)[i - 1].Fin?
    ensures RollingMean(s, width)[i].v - RollingMean(s, width)[i - 1].v
         == (s[i].v - s[i - width].v) / width as real
  {
    var all := s[i - width..i + 1];
    assert s[i - width..i] == all[..width] && s[i + 1 - width..i + 1] == all[1..];
    FullWindow(s, width, i);
    FullWindow(s, width, i - 1);
    SlideSum(s, width, i);
    var a, b, w := FinSum(s[i + 1 - width..i + 1]), FinSum(s[i - width..i]), width as real;
    assert a / w - b / w == (a - b) / w;
  }

  /** A rolling mean of values in [lo, hi] (or NaN) is in [lo, hi] (or NaN). */
  lemma RollingBounds(s: seq<Num>, width: nat, lo: real, hi: real)
    requires width > 0
    requires forall k :: 0 <= k < |s| ==> s[k].NaN? || (s[k].Fin? && lo <= s[k].v <= hi)
    ensures forall i :: 0 <= i < |s| ==>
      RollingMean(s, width)[i].NaN? || (RollingMean(s, width)[i].Fin? && lo <= RollingMean(s, width)[i].v <= hi)
  {
    var r := RollingMean(s, width);
    forall i | 0 <= i < |s| && r[i].Fin?
      ensures lo <= r[i].v <= hi
    {
      var w := s[i + 1 - width..i + 1];
      assert PosInf !in w;
      FinCountAll(w);
      FinSumBounds(w, lo, hi);
      MeanWithin(FinSum(w), width, lo, hi);
    }
  }

  /** A rolling mean of positive values (or NaN) is positive (or NaN). */
  lemma RollingPositive(s: seq<Num>, width: nat)
    requires width > 0
    requires forall k :: 0 <= k < |s| ==> s[k].NaN? || (s[k].Fin? && 0.0 < s[k].v)
    ensures forall i :: 0 <= i < |s| ==> RollingMean(s, width)[i].NaN? || (RollingMean(s, width)[i].Fin? && 0.0 < RollingMean(s, width)[i].v)
  {
    var r := RollingMean(s, width);
    forall i | 0 <= i < |s| && r[i].Fin?
      ensures 0.0 < r[i].v
    {
      var w := s[i + 1 - width..i + 1];
      assert PosInf !in w;
      FinCountAll(w);
      FinSumPositive(w);
    }
  }

  const YEAR: By := One(Year)

  /** `prizes_per_year`: the year groups, ascending, with their prize counts. */
  function PrizesPerYear(rows: seq<Record>): (gs: seq<Group>)
    ensures StrictlyAscending(KeysOf(gs))
    ensures forall k :: k in KeysOf(gs) <==> exists i :: 0 <= i < |rows| && rows[i].year.Some? && k == KInt(rows[i].year.value)
    ensures forall i :: 0 <= i < |gs| ==> gs[i].count == CountKey(rows, YEAR, gs[i].key)
  {
    assert forall i :: 0 <= i < |rows| ==> KeyOf(rows[i], YEAR) == (if rows[i].year.Some? then Some(KInt(rows[i].year.value)) else None);
    GroupCount(rows, YEAR)
  }

  function Counts(gs: seq<Group>): (xs: seq<Num>)
    ensures |xs| == |gs|
  {
    seq(|gs|, i requires 0 <= i < |gs| => Fin(gs[i].count as real))
  }

  /** `rolling_prizes`, line 99: NaN for the first four years, then a
      finite non-negative mean. */
  function RollingPrizes(rows: seq<Record>): (r: seq<Num>)
    ensures |r| == |PrizesPerYear(rows)|
    ensures forall i :: 0 <= i < |r| ==> (r[i].NaN? <==> i < WINDOW - 1)
    ensures forall i :: 0 <= i < |r| && r[i].Fin? ==> r[i].v >= 0.0
  {
    var xs := Counts(PrizesPerYear(rows));
    var r := RollingMean(xs, WINDOW);
    forall i | WINDOW - 1 <= i < |r|
      ensures r[i].Fin? && r[i].v >= 0.0
    {
      var w := xs[i + 1 - WINDOW..i + 1];
      assert AllFinite(w);
      FinSumNonNegative(w);
    }
    r
  }

  lemma FinSumFive(a: real, b: real, c: real, d: real, e: real)
    ensures FinSum([Fin(a), Fin(b), Fin(c), Fin(d), Fin(e)]) == a + b + c + d + e
  {
    assert [Fin(e)][1..] == [];
    assert FinSum([Fin(e)]) == e;
    assert [Fin(d), Fin(e)][1..] == [Fin(e)];
    assert FinSum([Fin(d), Fin(e)]) == d + e;
    assert [Fin(c), Fin(d), Fin(e)][1..] == [Fin(d), Fin(e)];
    assert FinSum([Fin(c), Fin(d), Fin(e)]) == c + d + e;
    assert [Fin(b), Fin(c), Fin(d), Fin(e)][1..] == [Fin(c), Fin(d), Fin(e)];
    assert FinSum([Fin(b), Fin(c), Fin(d), Fin(e)]) == b + c + d + e;
    assert [Fin(a), Fin(b), Fin(c), Fin(d), Fin(e)][1..] == [Fin(b), Fin(c), Fin(d), Fin(e)];
  }

  /** Keys at positions lo and hi of an ascending key list enclose exactly
      the keys at positions lo..hi. */
  lemma BetweenInWindow(rows: seq<Record>, gs: seq<Group>, lo: nat, hi: nat, k: Key)
    requires gs == PrizesPerYear(rows) && lo <= hi < |gs|
    requires KeyOccurs(rows, YEAR, k) && !Less(k, gs[lo].key) && !Less(gs[hi].key, k)
    ensures exists j :: lo <= j <= hi && gs[j].key == k
  {
    var ks := KeysOf(gs);
    assert k in ks;
    var j :| 0 <= j < |ks| && ks[j] == k;
    AscendingIndexOrder(ks, j, lo);
    AscendingIndexOrder(ks, hi, j);
    assert gs[j].key == k;
  }

  /** From the fifth year on, the rolling prize count is the mean of the
      counts of that year and the four years before it that have prizes. */
  lemma RollingPrizesMean(rows: seq<Record>, i: nat)
    requires WINDOW - 1 <= i < |PrizesPerYear(rows)|
    ensures var gs := PrizesPerYear(rows);
      RollingPrizes(rows)[i] == Fin((gs[i - 4].count + gs[i - 3].count + gs[i - 2].count
        + gs[i - 1].count + gs[i].count) as real / 5.0)
  {
    var gs := PrizesPerYear(rows);
    var xs := Counts(gs);
    var w := xs[i - 4..i + 1];
    assert w == [xs[i - 4], xs[i - 3], xs[i - 2], xs[i - 1], xs[i]];
    FinSumFive(gs[i - 4].count as real, gs[i - 3].count as real, gs[i - 2].count as real,
               gs[i - 1].count as real, gs[i].count as real);
    assert AllFinite(w);
    assert NaN !in w && PosInf !in w;
  }

  /** From the fifth year on, the rolling prize count is the mean of the
      counts of that year and the four years before it that have prizes;
      those five years are consecutive among the years in the table, so no
      year in between is skipped. */
  lemma RollingPrizesWindow(rows: seq<Record>, i: nat)
    requires WINDOW - 1 <= i < |PrizesPerYear(rows)|
    ensures var gs := PrizesPerYear(rows);
      RollingPrizes(rows)[i] == Fin((CountKey(rows, YEAR, gs[i - 4].key) + CountKey(rows, YEAR, gs[i - 3].key)
        + CountKey(rows, YEAR, gs[i - 2].key) + CountKey(rows, YEAR, gs[i - 1].key)
        + CountKey(rows, YEAR, gs[i].key)) as real / 5.0)
    ensures var gs := PrizesPerYear(rows);
      forall k :: KeyOccurs(rows, YEAR, k) && !Less(k, gs[i - 4].key) && !Less(gs[i].key, k) ==>
        exists j :: i - 4 <= j <= i && gs[j].key == k
  {
    var gs := PrizesPerYear(rows);
    RollingPrizesMean(rows, i);
    forall k | KeyOccurs(rows, YEAR, k) && !Less(k, gs[i - 4].key) && !Less(gs[i].key, k)
      ensures exists j :: i - 4 <= j <= i && gs[j].key == k
    {
      BetweenInWindow(rows, gs, i - 4, i, k);
    }
  }

  /** Row r belongs to the year group y. */
  predicate InYear(r: Record, y: Key)
  {
    r.year.Some? && y == KInt(r.year.value)
  }

  /** The shares of the rows of year y, in table order. */
  function YearShares(rows: seq<Record>, shares: seq<Num>, y: Key): seq<Num>
    requires |shares| == |rows|
  {
    if rows == [] then []
    else
      var n := |rows| - 1;
      YearShares(rows[..n], shares[..n], y) + (if InYear(rows[n], y) then [shares[n]] else [])
  }

  function YearMask(rows: seq<Record>, y: Key): (mask: seq<bool>)
    ensures |mask| == |rows|
  {
    seq(|rows|, j requires 0 <= j < |rows| => InYear(rows[j], y))
  }

  /** The positions of the rows of year y, in table order. */
  function YearRows(rows: seq<Record>, y: Key): (idx: seq<nat>)
    ensures forall k :: 0 <= k < |idx| ==> idx[k] < |rows| && InYear(rows[idx[k]], y)
    ensures forall k, l :: 0 <= k < l < |idx| ==> idx[k] < idx[l]
    ensures forall j :: 0 <= j < |rows| && InYear(rows[j], y) ==> j in idx
  {
    Positions(YearMask(rows, y))
  }

  /** The entries of shares at the positions idx. */
  function Pick(shares: seq<Num>, idx: seq<nat>): (r: seq<Num>)
    requires forall k :: 0 <= k < |idx| ==> idx[k] < |shares|
    ensures |r| == |idx|
  {
    seq(|idx|, k requires 0 <= k < |idx| => shares[idx[k]])
  }

  /** The shares listed for year y are exactly the shares of the rows of
      year y, in table order. */
  lemma {:induction false} YearSharesExact(rows: seq<Record>, shares: seq<Num>, y: Key)
    requires |shares| == |rows|
    ensures YearShares(rows, shares, y) == Pick(shares, YearRows(rows, y))
  {
    if rows != [] {
      var n := |rows| - 1;
      YearSharesExact(rows[..n], shares[..n], y);
      var mask := YearMask(rows, y);
      assert mask[..n] == YearMask(rows[..n], y);
      var rest := YearRows(rows[..n], y);
      assert Pick(shares[..n], rest) == Pick(shares, rest);
    }
  }

  /** `share_ave`, line 123: for each year of the table, in year order, the
      skip-NaN mean of the shares of exactly that year's rows. */
  function MeanShareByYear(rows: seq<Record>, shares: seq<Num>): (m: seq<Num>)
    requires |shares| == |rows|
    ensures |m| == |PrizesPerYear(rows)|
    ensures forall i :: 0 <= i < |m| ==>
      m[i] == MeanSkipNa(Pick(shares, YearRows(rows, PrizesPerYear(rows)[i].key)))
  {
    var gs := PrizesPerYear(rows);
    forall i | 0 <= i < |gs|
      ensures YearShares(rows, shares, gs[i].key) == Pick(shares, YearRows(rows, gs[i].key))
    {
      YearSharesExact(rows, shares, gs[i].key);
    }
    seq(|gs|, i requires 0 <= i < |gs| => MeanSkipNa(YearShares(rows, shares, gs[i].key)))
  }

  /** A year's mean share is NaN iff every row of that year has a missing
      share; otherwise, with no infinite share, it is the sum of that year's
      finite shares over their number. */
  lemma MeanShareByYearNaN(rows: seq<Record>, shares: seq<Num>, i: nat)
    requires |shares| == |rows| && i < |PrizesPerYear(rows)|
    ensures var y := PrizesPerYear(rows)[i].key;
      MeanShareByYear(rows, shares)[i].NaN? <==>
        forall j :: 0 <= j < |rows| && InYear(rows[j], y) ==> shares[j].NaN?
    ensures var ys := Pick(shares, YearRows(rows, PrizesPerYear(rows)[i].key));
      var m := MeanShareByYear(rows, shares)[i];
      !m.NaN? && PosInf !in ys ==> m == Fin(FinSum(ys) / FinCount(ys) as real)
  {
    var y := PrizesPerYear(rows)[i].key;
    var idx := YearRows(rows, y);
    var ys := Pick(shares, idx);
    forall j | 0 <= j < |rows| && InYear(rows[j], y) && (forall k :: 0 <= k < |ys| ==> ys[k].NaN?)
      ensures shares[j].NaN?
    {
      var k :| 0 <= k < |idx| && idx[k] == j;
      assert ys[k] == shares[j];
    }
  }

  /** `rolling_share_ave`, line 124: NaN for the first four years; from the
      fifth on, NaN iff one of the five years has no mean share. */
  function RollingShare(rows: seq<Record>, shares: seq<Num>): (r: seq<Num>)
    requires |shares| == |rows|
    ensures |r| == |PrizesPerYear(rows)|
    ensures forall i :: 0 <= i < |r| && i < WINDOW - 1 ==> r[i] == NaN
    ensures forall i :: WINDOW - 1 <= i < |r| ==>
      (r[i].NaN? <==> exists j :: i + 1 - WINDOW <= j <= i && MeanShareByYear(rows, shares)[j].NaN?)
  {
    var m := MeanShareByYear(rows, shares);
    RollingNaN(m, WINDOW);
    RollingMean(m, WINDOW)
  }

  /** With every share a fraction in (0, 1] or missing, each year's mean
      share, and each rolling mean of them, is in (0, 1] or NaN. */
  lemma RollingShareUnitInterval(rows: seq<Record>, shares: seq<Num>)
    requires |shares| == |rows|
    requires forall k :: 0 <= k < |shares| ==> shares[k].NaN? || (shares[k].Fin? && 0.0 < shares[k].v <= 1.0)
    ensures forall i :: 0 <= i < |PrizesPerYear(rows)| ==>
      RollingShare(rows, shares)[i].NaN? || (RollingShare(rows, shares)[i].Fin? && 0.0 < RollingShare(rows, shares)[i].v <= 1.0)
  {
    var m := MeanShareByYear(rows, shares);
    var gs := PrizesPerYear(rows);
    forall i | 0 <= i < |m|
      ensures m[i].NaN? || (m[i].Fin? && 0.0 < m[i].v <= 1.0)
    {
      var ys := Pick(shares, YearRows(rows, gs[i].key));
      MeanSkipNaUnitInterval(ys);
    }
    RollingBounds(m, WINDOW, 0.0, 1.0);
    RollingPositive(m, WINDOW);
  }
}
