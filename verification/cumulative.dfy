/** Cumulative prizes per birth country over the years:
    `groupby(["birth_country_current", "year"]).count()`, then
    `.groupby(level=[0]).cumsum()` over the prize counts. The intermediate
    `sort_values("year")` does not show in the result, because the second
    group-by sorts the rows by (country, year) again before the running sum. */
module Cumulative {
  import opened Keys
  import opened Table
  import opened GroupBy

  const COUNTRY_YEAR: By := Two(BirthCountryCurrent, Year)

  /** One row of `cumulative_prizes`. */
  datatype Running = Running(country: string, year: int, prize: nat)

  /** A row of country c awarded in year y or before. */
  predicate InCountryUpTo(r: Record, c: string, y: int)
  {
    r.birthCountryCurrent == Some(c) && r.year.Some? && r.year.value <= y
  }

  /** The prizes country c has won up to and including year y. */
  function CountUpTo(rows: seq<Record>, c: string, y: int): nat
  {
    if rows == [] then 0
    else (if InCountryUpTo(rows[0], c, y) && rows[0].prize.Some? then 1 else 0) + CountUpTo(rows[1..], c, y)
  }

  /** The prizes country c has won in a year the table records. */
  function CountCountry(rows: seq<Record>, c: string): nat
  {
    if rows == [] then 0
    else
      (if rows[0].birthCountryCurrent == Some(c) && rows[0].year.Some? && rows[0].prize.Some? then 1 else 0)
      + CountCountry(rows[1..], c)
  }

  /** Every (country, year) group key is a country name paired with a year. */
  lemma KeyShape(rows: seq<Record>, k: Key)
    requires KeyOccurs(rows, COUNTRY_YEAR, k)
    ensures k.KPair? && k.fst.KStr? && k.snd.KInt?
    ensures exists i :: 0 <= i < |rows| && rows[i].birthCountryCurrent == Some(k.fst.s) && rows[i].year == Some(k.snd.i)
  {
    var i :| 0 <= i < |rows| && KeyOf(rows[i], COUNTRY_YEAR) == Some(k);
  }

  /** The groups of country c, in order. */
  function OfCountry(gs: seq<Group>, c: string): (r: seq<Group>)
    ensures forall g :: g in r <==> g in gs && g.key.KPair? && g.key.fst == KStr(c)
    ensures StrictlyAscending(KeysOf(gs)) ==> StrictlyAscending(KeysOf(r))
  {
    if gs == [] then []
    else
      var rest := OfCountry(gs[1..], c);
      assert gs == [gs[0]] + gs[1..];
      if gs[0].key.KPair? && gs[0].key.fst == KStr(c) then
        assert StrictlyAscending(KeysOf(gs)) ==> StrictlyAscending(KeysOf([gs[0]] + rest)) by {
          if StrictlyAscending(KeysOf(gs)) {
            FirstBelowRest(gs, rest);
          }
        }
        [gs[0]] + rest
      else
        assert StrictlyAscending(KeysOf(gs)) ==> StrictlyAscending(KeysOf(gs[1..])) by {
          assert KeysOf(gs[1..]) == KeysOf(gs)[1..];
        }
        rest
  }

  /** Putting back the first group in front of a selection of the later
      ones keeps the keys ascending. */
  lemma FirstBelowRest(gs: seq<Group>, rest: seq<Group>)
    requires gs != [] && StrictlyAscending(KeysOf(gs))
    requires StrictlyAscending(KeysOf(gs[1..])) ==> StrictlyAscending(KeysOf(rest))
    requires forall g :: g in rest ==> g in gs[1..]
    ensures StrictlyAscending(KeysOf([gs[0]] + rest))
  {
    var all := KeysOf(gs);
    assert KeysOf(gs[1..]) == all[1..];
    var ks := KeysOf([gs[0]] + rest);
    forall a, b | 0 <= a < b < |ks|
      ensures Less(ks[a], ks[b])
    {
      assert ks[b] == rest[b - 1].key;
      if a == 0 {
        assert rest[b - 1] in rest;
        var m :| 0 <= m < |gs[1..]| && gs[1..][m] == rest[b - 1];
        assert all[m + 1] == ks[b] && all[0] == ks[0];
      } else {
        assert ks[a] == KeysOf(rest)[a - 1] && ks[b] == KeysOf(rest)[b - 1];
      }
    }
  }

  /** The running total of country c over a prefix of the groups. */
  function Through(gs: seq<Group>, c: string): nat
  {
    if gs == [] then 0
    else (if gs[0].key.KPair? && gs[0].key.fst == KStr(c) then gs[0].count else 0) + Through(gs[1..], c)
  }

  /** The running total is the sum of the counts of the country's groups. */
  lemma {:induction false} ThroughSelection(gs: seq<Group>, c: string)
    ensures Through(gs, c) == SumCounts(OfCountry(gs, c))
  {
    if gs != [] {
      ThroughSelection(gs[1..], c);
      if gs[0].key.KPair? && gs[0].key.fst == KStr(c) {
        assert ([gs[0]] + OfCountry(gs[1..], c))[1..] == OfCountry(gs[1..], c);
      }
    }
  }

  predicate IsCountryYear(k: Key)
  {
    k.KPair? && k.fst.KStr? && k.snd.KInt?
  }

  /** The running totals over (country, year) groups listed in order: each
      group's country, year, and the sum of the counts of its country's
      groups up to and including it. */
  function Cumulate(gs: seq<Group>): (cum: seq<Running>)
    requires forall j :: 0 <= j < |gs| ==> IsCountryYear(gs[j].key)
    ensures |cum| == |gs|
    ensures forall j :: 0 <= j < |gs| ==> gs[j].key == KPair(KStr(cum[j].country), KInt(cum[j].year))
  {
    seq(|gs|, j requires 0 <= j < |gs| && IsCountryYear(gs[j].key) =>
      Running(gs[j].key.fst.s, gs[j].key.snd.i, Through(gs[..j + 1], gs[j].key.fst.s)))
  }

  lemma GroupKeysShape(rows: seq<Record>)
    ensures forall j :: 0 <= j < |GroupCount(rows, COUNTRY_YEAR)| ==> IsCountryYear(GroupCount(rows, COUNTRY_YEAR)[j].key)
  {
    var gs := GroupCount(rows, COUNTRY_YEAR);
    forall j | 0 <= j < |gs|
      ensures IsCountryYear(gs[j].key)
    {
      assert KeysOf(gs)[j] == gs[j].key;
      KeyShape(rows, gs[j].key);
    }
  }

  /** `cumulative_prizes` after `reset_index`: one row per (country, year)
      that occurs, in (country, year) order, with the country's running
      prize total. */
  function CumulativePrizes(rows: seq<Record>): (cum: seq<Running>)
    ensures |cum| == |GroupCount(rows, COUNTRY_YEAR)|
    ensures forall j :: 0 <= j < |cum| ==> GroupCount(rows, COUNTRY_YEAR)[j].key == KPair(KStr(cum[j].country), KInt(cum[j].year))
  {
    GroupKeysShape(rows);
    Cumulate(GroupCount(rows, COUNTRY_YEAR))
  }

  /** Counting the rows of the groups ks is counting the rows of country c
      up to year y, once the two select the same rows. */
  lemma {:induction false} CountKeyInUpTo(rows: seq<Record>, ks: seq<Key>, c: string, y: int)
    requires forall i :: 0 <= i < |rows| ==>
      ((KeyOf(rows[i], COUNTRY_YEAR).Some? && KeyOf(rows[i], COUNTRY_YEAR).value in ks) <==> InCountryUpTo(rows[i], c, y))
    ensures CountKeyIn(rows, COUNTRY_YEAR, ks) == CountUpTo(rows, c, y)
  {
    if rows != [] {
      assert forall i :: 1 <= i < |rows| ==> rows[1..][i - 1] == rows[i];
      CountKeyInUpTo(rows[1..], ks, c, y);
    }
  }

  /** Among ascending (country, year) groups, the first j+1 groups of
      country c are the groups of c with a year up to that of group j. */
  lemma SelectedKey(gs: seq<Group>, j: nat, c: string, y: int, cc: string, yy: int)
    requires StrictlyAscending(KeysOf(gs)) && j < |gs|
    requires gs[j].key == KPair(KStr(c), KInt(y))
    requires KPair(KStr(cc), KInt(yy)) in KeysOf(gs)
    ensures KPair(KStr(cc), KInt(yy)) in KeysOf(OfCountry(gs[..j + 1], c)) <==> cc == c && yy <= y
  {
    var ks := KeysOf(gs);
    var k := KPair(KStr(cc), KInt(yy));
    var sel := OfCountry(gs[..j + 1], c);
    var m :| 0 <= m < |ks| && ks[m] == k;
    assert ks[j] == gs[j].key;
    AscendingIndexOrder(ks, m, j);
    if k in KeysOf(sel) {
      var n :| 0 <= n < |sel| && KeysOf(sel)[n] == k;
      assert sel[n] in sel;
      assert sel[n] in gs[..j + 1];
      var p :| 0 <= p <= j && gs[..j + 1][p] == sel[n];
      assert ks[p] == k;
      AscendingIndexOrder(ks, p, m);
    }
    if cc == c && yy <= y {
      assert gs[..j + 1][m] == gs[m];
      assert gs[m] in sel;
      var n :| 0 <= n < |sel| && sel[n] == gs[m];
      assert KeysOf(sel)[n] == k;
    }
  }

  /** The first j+1 groups, kept for the country of row j, hold exactly
      the rows of that country up to the year of row j. */
  lemma PrefixSelectsUpTo(rows: seq<Record>, j: nat, r: Record)
    requires j < |GroupCount(rows, COUNTRY_YEAR)|
    requires r in rows
    ensures var gs := GroupCount(rows, COUNTRY_YEAR);
      var e := CumulativePrizes(rows)[j];
      (KeyOf(r, COUNTRY_YEAR).Some? && KeyOf(r, COUNTRY_YEAR).value in KeysOf(OfCountry(gs[..j + 1], e.country)))
        <==> InCountryUpTo(r, e.country, e.year)
  {
    var gs := GroupCount(rows, COUNTRY_YEAR);
    var e := CumulativePrizes(rows)[j];
    if KeyOf(r, COUNTRY_YEAR).Some? {
      var i :| 0 <= i < |rows| && rows[i] == r;
      assert KeyOccurs(rows, COUNTRY_YEAR, KeyOf(r, COUNTRY_YEAR).value);
      SelectedKey(gs, j, e.country, e.year, r.birthCountryCurrent.value, r.year.value);
    }
  }

  /** The groups of one country among the first n groups keep ascending
      keys and carry the counts of their rows. */
  lemma SelectionMatches(rows: seq<Record>, n: nat, c: string)
    requires n <= |GroupCount(rows, COUNTRY_YEAR)|
    ensures StrictlyAscending(KeysOf(OfCountry(GroupCount(rows, COUNTRY_YEAR)[..n], c)))
    ensures CountsMatch(rows, COUNTRY_YEAR, OfCountry(GroupCount(rows, COUNTRY_YEAR)[..n], c))
  {
    var gs := GroupCount(rows, COUNTRY_YEAR);
    var pre := gs[..n];
    assert KeysOf(pre) == KeysOf(gs)[..n];
    var sel := OfCountry(pre, c);
    forall m | 0 <= m < |sel|
      ensures sel[m].count == CountKey(rows, COUNTRY_YEAR, sel[m].key)
    {
      assert sel[m] in sel;
      var p :| 0 <= p < n && pre[p] == sel[m];
      assert gs[p] == sel[m];
    }
  }

  lemma CumulativeEntry(rows: seq<Record>, j: nat)
    requires j < |CumulativePrizes(rows)|
    ensures var e := CumulativePrizes(rows)[j];
      e.prize == Through(GroupCount(rows, COUNTRY_YEAR)[..j + 1], e.country)
  {
    var gs := GroupCount(rows, COUNTRY_YEAR);
    GroupKeysShape(rows);
    assert CumulativePrizes(rows) == Cumulate(gs);
  }

  /** Each cumulative value is the number of prizes the country has won up
      to and including that year. */
  lemma CumulativeIsRunningTotal(rows: seq<Record>, j: nat)
    requires j < |CumulativePrizes(rows)|
    ensures var e := CumulativePrizes(rows)[j];
      e.prize == CountUpTo(rows, e.country, e.year)
  {
    var e := CumulativePrizes(rows)[j];
    var sel := OfCountry(GroupCount(rows, COUNTRY_YEAR)[..j + 1], e.country);
    CumulativeEntry(rows, j);
    ThroughSelection(GroupCount(rows, COUNTRY_YEAR)[..j + 1], e.country);
    SelectionMatches(rows, j + 1, e.country);
    SumCountsIsCountKeyIn(rows, COUNTRY_YEAR, sel);
    forall i | 0 <= i < |rows|
      ensures (KeyOf(rows[i], COUNTRY_YEAR).Some? && KeyOf(rows[i], COUNTRY_YEAR).value in KeysOf(sel))
        <==> InCountryUpTo(rows[i], e.country, e.year)
    {
      PrefixSelectsUpTo(rows, j, rows[i]);
    }
    CountKeyInUpTo(rows, KeysOf(sel), e.country, e.year);
  }

  lemma {:induction false} CountUpToMonotone(rows: seq<Record>, c: string, y: int, z: int)
    requires y <= z
    ensures CountUpTo(rows, c, y) <= CountUpTo(rows, c, z)
  {
    if rows != [] {
      CountUpToMonotone(rows[1..], c, y, z);
    }
  }

  lemma {:induction false} CountUpToAll(rows: seq<Record>, c: string, y: int)
    requires forall i :: 0 <= i < |rows| && rows[i].birthCountryCurrent == Some(c) && rows[i].year.Some? ==> rows[i].year.value <= y
    ensures CountUpTo(rows, c, y) == CountCountry(rows, c)
  {
    if rows != [] {
      assert forall i :: 1 <= i < |rows| ==> rows[1..][i - 1] == rows[i];
      CountUpToAll(rows[1..], c, y);
    }
  }

  /** Within one country the rows run through its years in increasing
      order, and the running total never decreases. */
  lemma CumulativeNonDecreasing(rows: seq<Record>, i: nat, j: nat)
    requires i < j < |CumulativePrizes(rows)|
    requires CumulativePrizes(rows)[i].country == CumulativePrizes(rows)[j].country
    ensures CumulativePrizes(rows)[i].year < CumulativePrizes(rows)[j].year
    ensures CumulativePrizes(rows)[i].prize <= CumulativePrizes(rows)[j].prize
  {
    var gs := GroupCount(rows, COUNTRY_YEAR);
    var cum := CumulativePrizes(rows);
    var ks := KeysOf(gs);
    assert ks[i] == KPair(KStr(cum[i].country), KInt(cum[i].year));
    assert ks[j] == KPair(KStr(cum[j].country), KInt(cum[j].year));
    AscendingIndexOrder(ks, i, j);
    LessIrreflexive(KStr(cum[i].country));
    CumulativeIsRunningTotal(rows, i);
    CumulativeIsRunningTotal(rows, j);
    CountUpToMonotone(rows, cum[i].country, cum[i].year, cum[j].year);
  }

  lemma EntryHasRow(rows: seq<Record>, m: nat)
    requires m < |CumulativePrizes(rows)|
    ensures exists i :: (0 <= i < |rows| && rows[i].birthCountryCurrent == Some(CumulativePrizes(rows)[m].country)
                         && rows[i].year == Some(CumulativePrizes(rows)[m].year))
  {
    var gs := GroupCount(rows, COUNTRY_YEAR);
    assert KeysOf(gs)[m] == gs[m].key;
    KeyShape(rows, gs[m].key);
  }

  lemma RowHasEntry(rows: seq<Record>, i: nat)
    requires i < |rows| && rows[i].birthCountryCurrent.Some? && rows[i].year.Some?
    ensures exists m :: (0 <= m < |CumulativePrizes(rows)| && CumulativePrizes(rows)[m].country == rows[i].birthCountryCurrent.value
                         && CumulativePrizes(rows)[m].year == rows[i].year.value)
  {
    var gs := GroupCount(rows, COUNTRY_YEAR);
    var cum := CumulativePrizes(rows);
    var k := KeyOf(rows[i], COUNTRY_YEAR).value;
    assert KeyOccurs(rows, COUNTRY_YEAR, k);
    assert k in KeysOf(gs);
    var m :| 0 <= m < |gs| && KeysOf(gs)[m] == k;
    assert gs[m].key == KPair(KStr(cum[m].country), KInt(cum[m].year));
  }

  /** The cumulative table has a row for (c, y) iff some record has birth
      country c and year y. */
  lemma CumulativeEntries(rows: seq<Record>, c: string, y: int)
    ensures (exists m :: 0 <= m < |CumulativePrizes(rows)| && CumulativePrizes(rows)[m].country == c && CumulativePrizes(rows)[m].year == y)
        <==> exists i :: 0 <= i < |rows| && rows[i].birthCountryCurrent == Some(c) && rows[i].year == Some(y)
  {
    var cum := CumulativePrizes(rows);
    if m :| 0 <= m < |cum| && cum[m].country == c && cum[m].year == y {
      EntryHasRow(rows, m);
    }
    if i :| 0 <= i < |rows| && rows[i].birthCountryCurrent == Some(c) && rows[i].year == Some(y) {
      RowHasEntry(rows, i);
    }
  }

  /** No row of a country has a year past that of the country's last group. */
  lemma LastYearOfCountry(rows: seq<Record>, j: nat, i: nat)
    requires j < |CumulativePrizes(rows)|
    requires forall m :: j < m < |CumulativePrizes(rows)| ==> CumulativePrizes(rows)[m].country != CumulativePrizes(rows)[j].country
    requires i < |rows| && rows[i].birthCountryCurrent == Some(CumulativePrizes(rows)[j].country) && rows[i].year.Some?
    ensures rows[i].year.value <= CumulativePrizes(rows)[j].year
  {
    var cum := CumulativePrizes(rows);
    CumulativeEntries(rows, cum[j].country, rows[i].year.value);
    var m :| 0 <= m < |cum| && cum[m].country == cum[j].country && cum[m].year == rows[i].year.value;
    if m > j {
      assert false;
    } else if m < j {
      CumulativeNonDecreasing(rows, m, j);
    }
  }

  /** A country's last row holds its total number of prizes. */
  lemma CumulativeEndsAtTotal(rows: seq<Record>, j: nat)
    requires j < |CumulativePrizes(rows)|
    requires forall m :: j < m < |CumulativePrizes(rows)| ==> CumulativePrizes(rows)[m].country != CumulativePrizes(rows)[j].country
    ensures CumulativePrizes(rows)[j].prize == CountCountry(rows, CumulativePrizes(rows)[j].country)
  {
    var e := CumulativePrizes(rows)[j];
    forall i | 0 <= i < |rows| && rows[i].birthCountryCurrent == Some(e.country) && rows[i].year.Some?
      ensures rows[i].year.value <= e.year
    {
      LastYearOfCountry(rows, j, i);
    }
    CumulativeIsRunningTotal(rows, j);
    CountUpToAll(rows, e.country, e.year);
  }
}
