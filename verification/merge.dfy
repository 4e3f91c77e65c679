/** Prizes per birth country and category, joined to the twenty countries
    with the most prizes: `pd.merge(df_country_category, top20_countries,
    on="birth_country_current")`, an inner join, then sorted by the
    country total. */
module Merge {
  import opened Keys
  import opened Table
  import opened GroupBy
  import opened Ranking

  /** One row of the merged frame: country, category, `cat_prize`, `total_prize`. */
  datatype Merged = Merged(country: Key, category: Key, catPrize: nat, totalPrize: nat)

  /** The rows the join produces for one (country, category) group. */
  function Matches(l: Group, right: seq<Group>): seq<Merged>
  {
    if right == [] then []
    else
      (if l.key.KPair? && right[0].key == l.key.fst then [Merged(l.key.fst, l.key.snd, l.count, right[0].count)] else [])
      + Matches(l, right[1..])
  }

  /** Inner join of (country, category) groups with country groups on the country. */
  function Join(left: seq<Group>, right: seq<Group>): seq<Merged>
  {
    if left == [] then [] else Matches(left[0], right) + Join(left[1..], right)
  }

  lemma {:induction false} MatchesMembers(l: Group, right: seq<Group>, m: Merged)
    ensures m in Matches(l, right) <==>
      l.key == KPair(m.country, m.category) && m.catPrize == l.count &&
      exists j :: 0 <= j < |right| && right[j].key == m.country && m.totalPrize == right[j].count
  {
    if right != [] {
      MatchesMembers(l, right[1..], m);
      if exists j :: 0 <= j < |right[1..]| && right[1..][j].key == m.country && m.totalPrize == right[1..][j].count {
        var j :| 0 <= j < |right[1..]| && right[1..][j].key == m.country && m.totalPrize == right[1..][j].count;
        assert right[j + 1] == right[1..][j];
      }
      if j :| 0 <= j < |right| && right[j].key == m.country && m.totalPrize == right[j].count {
        if j > 0 {
          assert right[1..][j - 1] == right[j];
        }
      }
    }
  }

  /** A merged row pairs a (country, category) group with the group of the
      same country, and every such pair is in the join. */
  lemma {:induction false} JoinMembers(left: seq<Group>, right: seq<Group>, m: Merged)
    ensures m in Join(left, right) <==>
      exists i, j :: 0 <= i < |left| && 0 <= j < |right| &&
        left[i].key == KPair(m.country, m.category) && m.catPrize == left[i].count &&
        right[j].key == m.country && m.totalPrize == right[j].count
  {
    if left != [] {
      JoinMembers(left[1..], right, m);
      MatchesMembers(left[0], right, m);
      if i, j :| (0 <= i < |left| && 0 <= j < |right| &&
                 left[i].key == KPair(m.country, m.category) && m.catPrize == left[i].count &&
                 right[j].key == m.country && m.totalPrize == right[j].count) {
        if i > 0 {
          assert left[1..][i - 1] == left[i];
        }
      }
      if i, j :| (0 <= i < |left[1..]| && 0 <= j < |right| &&
                 left[1..][i].key == KPair(m.country, m.category) && m.catPrize == left[1..][i].count &&
                 right[j].key == m.country && m.totalPrize == right[j].count) {
        assert left[i + 1] == left[1..][i];
      }
    }
  }

  /** The (country, category) key a merged row comes from. */
  function PairOf(m: Merged): Key
  {
    KPair(m.country, m.category)
  }

  const COUNTRY_CATEGORY: By := Two(BirthCountryCurrent, Category)
  const COUNTRY: By := One(BirthCountryCurrent)

  function ByTotal(m: Merged): int
  {
    m.totalPrize
  }

  /** Lines 180-188: per-country-and-category counts sorted descending,
      joined to the top-20 countries, sorted by country total. */
  function CountryCategoryTop(rows: seq<Record>): (r: seq<Merged>)
    ensures forall i, j :: 0 <= i < j < |r| ==> r[i].totalPrize <= r[j].totalPrize
  {
    var left := SortBy(GroupCount(rows, COUNTRY_CATEGORY), ByCountDescending);
    var right := Top20(GroupCount(rows, COUNTRY));
    var r := SortBy(Join(left, right), ByTotal);
    assert forall i, j :: 0 <= i < j < |r| ==> ByTotal(r[i]) <= ByTotal(r[j]);
    r
  }

  /** A country's prizes in one category are among its prizes in all. */
  lemma {:induction false} CategoryWithinCountry(rows: seq<Record>, c: Key, k: Key)
    ensures CountKey(rows, COUNTRY_CATEGORY, KPair(c, k)) <= CountKey(rows, COUNTRY, c)
  {
    if rows != [] {
      CategoryWithinCountry(rows[1..], c, k);
    }
  }

  /** In the merged frame every row is a (country, category) pair some
      record has, with that pair's count; that count is at most its
      country's total, and the country is one of the top 20. */
  lemma CountryCategoryTopBounded(rows: seq<Record>, m: Merged)
    requires m in CountryCategoryTop(rows)
    ensures KeyOccurs(rows, COUNTRY_CATEGORY, PairOf(m))
    ensures m.catPrize == CountKey(rows, COUNTRY_CATEGORY, PairOf(m))
    ensures m.catPrize <= m.totalPrize
    ensures exists g :: g in Top20(GroupCount(rows, COUNTRY)) && g.key == m.country && g.count == m.totalPrize
  {
    var left := SortBy(GroupCount(rows, COUNTRY_CATEGORY), ByCountDescending);
    var right := Top20(GroupCount(rows, COUNTRY));
    assert m in multiset(Join(left, right));
    JoinMembers(left, right, m);
    var i, j :| (0 <= i < |left| && 0 <= j < |right| &&
                 left[i].key == KPair(m.country, m.category) && m.catPrize == left[i].count &&
                 right[j].key == m.country && m.totalPrize == right[j].count);
    assert left[i] in multiset(left);
    GroupCountMember(rows, COUNTRY_CATEGORY, left[i]);
    Top20Selects(GroupCount(rows, COUNTRY));
    assert right[j] in multiset(right);
    GroupCountMember(rows, COUNTRY, right[j]);
    CategoryWithinCountry(rows, m.country, m.category);
  }

  /** Conversely, every (country, category) group whose country is among
      the top 20 is in the merged frame, with both counts. */
  lemma CountryCategoryTopComplete(rows: seq<Record>, c: Key, k: Key, h: Group)
    requires KeyOccurs(rows, COUNTRY_CATEGORY, KPair(c, k))
    requires h in Top20(GroupCount(rows, COUNTRY)) && h.key == c
    ensures Merged(c, k, CountKey(rows, COUNTRY_CATEGORY, KPair(c, k)), h.count) in CountryCategoryTop(rows)
  {
    var gs := GroupCount(rows, COUNTRY_CATEGORY);
    var left := SortBy(gs, ByCountDescending);
    var right := Top20(GroupCount(rows, COUNTRY));
    var m := Merged(c, k, CountKey(rows, COUNTRY_CATEGORY, KPair(c, k)), h.count);
    var p :| 0 <= p < |gs| && KeysOf(gs)[p] == KPair(c, k);
    assert gs[p] in multiset(left);
    var i :| 0 <= i < |left| && left[i] == gs[p];
    var j :| 0 <= j < |right| && right[j] == h;
    JoinMembers(left, right, m);
    assert m in multiset(Join(left, right));
    assert m in multiset(CountryCategoryTop(rows));
  }

  /** Against right-hand groups with distinct keys, a left group matches at most once. */
  lemma {:induction false} MatchesAtMostOne(l: Group, right: seq<Group>)
    requires forall i, j :: 0 <= i < j < |right| ==> right[i].key != right[j].key
    ensures |Matches(l, right)| <= 1
  {
    if right != [] {
      assert forall i, j :: 0 <= i < j < |right[1..]| ==> right[1..][i] == right[i + 1] && right[1..][j] == right[j + 1];
      MatchesAtMostOne(l, right[1..]);
      if l.key.KPair? && right[0].key == l.key.fst && Matches(l, right[1..]) != [] {
        var m := Matches(l, right[1..])[0];
        MatchesMembers(l, right[1..], m);
        assert false;
      }
    }
  }

  /** Joining groups with distinct keys on both sides yields each
      (country, category) pair at most once. */
  lemma {:induction false} JoinPairsDistinct(left: seq<Group>, right: seq<Group>)
    requires forall i, j :: 0 <= i < j < |left| ==> left[i].key != left[j].key
    requires forall i, j :: 0 <= i < j < |right| ==> right[i].key != right[j].key
    ensures forall a, b :: 0 <= a < b < |Join(left, right)| ==> PairOf(Join(left, right)[a]) != PairOf(Join(left, right)[b])
  {
    if left != [] {
      var ms := Matches(left[0], right);
      var rest := Join(left[1..], right);
      var r := Join(left, right);
      assert forall i, j :: 0 <= i < j < |left[1..]| ==> left[1..][i] == left[i + 1] && left[1..][j] == left[j + 1];
      JoinPairsDistinct(left[1..], right);
      MatchesAtMostOne(left[0], right);
      assert r == ms + rest;
      forall a, b | 0 <= a < b < |r|
        ensures PairOf(r[a]) != PairOf(r[b])
      {
        if a >= |ms| {
          assert r[a] == rest[a - |ms|] && r[b] == rest[b - |ms|];
        } else {
          assert r[a] == ms[0] && r[b] == rest[b - 1];
          MatchesMembers(left[0], right, ms[0]);
          JoinMembers(left[1..], right, rest[b - 1]);
          var i, j :| (0 <= i < |left[1..]| && 0 <= j < |right| &&
                       left[1..][i].key == PairOf(rest[b - 1]) && rest[b - 1].catPrize == left[1..][i].count &&
                       right[j].key == rest[b - 1].country && rest[b - 1].totalPrize == right[j].count);
          assert left[i + 1].key == PairOf(r[b]);
        }
      }
    }
  }

  /** Reordering merged rows with distinct pairs keeps the pairs distinct. */
  lemma PermutedPairsDistinct(joined: seq<Merged>, r: seq<Merged>)
    requires multiset(r) == multiset(joined)
    requires forall a, b :: 0 <= a < b < |joined| ==> PairOf(joined[a]) != PairOf(joined[b])
    ensures forall a, b :: 0 <= a < b < |r| ==> PairOf(r[a]) != PairOf(r[b])
  {
    forall a, b | 0 <= a < b < |r|
      ensures PairOf(r[a]) != PairOf(r[b])
    {
      if PairOf(r[a]) == PairOf(r[b]) {
        assert r[a] in multiset(joined) && r[b] in multiset(joined);
        var p :| 0 <= p < |joined| && joined[p] == r[a];
        var q :| 0 <= q < |joined| && joined[q] == r[b];
        assert p == q;
        TwiceInSeq(r, a, b);
        DistinctOnce(joined, r[a]);
        assert false;
      }
    }
  }

  /** No two rows of the merged frame share a (country, category) pair. */
  lemma CountryCategoryTopDistinct(rows: seq<Record>)
    ensures forall a, b :: 0 <= a < b < |CountryCategoryTop(rows)| ==>
      PairOf(CountryCategoryTop(rows)[a]) != PairOf(CountryCategoryTop(rows)[b])
  {
    var gs := GroupCount(rows, COUNTRY_CATEGORY);
    var cs := GroupCount(rows, COUNTRY);
    var left := SortBy(gs, ByCountDescending);
    var right := Top20(cs);
    DrawnKeysDistinct(gs, left);
    Top20Selects(cs);
    DrawnKeysDistinct(cs, right);
    JoinPairsDistinct(left, right);
    assert CountryCategoryTop(rows) == SortBy(Join(left, right), ByTotal);
    PermutedPairsDistinct(Join(left, right), CountryCategoryTop(rows));
  }
}
