/** The named counting group-bys of the script: prizes by category and
    sex, the top-20 organisations, organisation cities and birth cities,
    and prizes by organisation country, city and name. */
module Reports {
  import opened Keys
  import opened Table
  import opened GroupBy
  import opened Ranking

  const CATEGORY_SEX: By := Two(Category, Sex)
  const SCHOOL: By := One(OrganizationName)
  const CITY: By := One(OrganizationCity)
  const BIRTH_CITY: By := One(BirthCity)
  const PLACE: By := Three(OrganizationCountry, OrganizationCity, OrganizationName)

  /** s lists every group of the cols group-by once, largest count first,
      each with the number of its rows that have a prize. */
  ghost predicate DescendingGroups(rows: seq<Record>, cols: By, s: seq<Group>)
  {
    && (forall i, j :: 0 <= i < j < |s| ==> s[i].count >= s[j].count)
    && |s| == |GroupCount(rows, cols)|
    && (forall g :: g in s ==> KeyOccurs(rows, cols, g.key) && g.count == CountKey(rows, cols, g.key))
    && (forall k :: KeyOccurs(rows, cols, k) ==> exists g :: g in s && g.key == k)
  }

  /** t holds min(20, number of groups) distinct groups of the cols
      group-by, ascending by count, each with the number of its rows that have a
      prize, and no key left out counts more than a group kept. */
  ghost predicate Top20Groups(rows: seq<Record>, cols: By, t: seq<Group>)
  {
    && |t| == Min(TOP, |GroupCount(rows, cols)|)
    && (forall i, j :: 0 <= i < j < |t| ==> t[i].count <= t[j].count)
    && (forall i, j :: 0 <= i < j < |t| ==> t[i].key != t[j].key)
    && (forall g :: g in t ==> KeyOccurs(rows, cols, g.key) && g.count == CountKey(rows, cols, g.key))
    && (forall k :: KeyOccurs(rows, cols, k) && (forall h :: h in t ==> h.key != k) ==>
          forall h :: h in t ==> CountKey(rows, cols, k) <= h.count)
  }

  /** `gender_categories`, lines 86-87, sorted by count, largest first. */
  function GenderCategories(rows: seq<Record>): (s: seq<Group>)
    ensures DescendingGroups(rows, CATEGORY_SEX, s)
  {
    SortedDescendingGroups(rows, CATEGORY_SEX);
    SortBy(GroupCount(rows, CATEGORY_SEX), ByCountDescending)
  }

  /** `top_schools`, lines 211-212. */
  function TopSchools(rows: seq<Record>): (t: seq<Group>)
    ensures Top20Groups(rows, SCHOOL, t)
  {
    Top20Report(rows, SCHOOL);
    Top20(GroupCount(rows, SCHOOL))
  }

  /** `winning_cities`, lines 221-222. */
  function TopCities(rows: seq<Record>): (t: seq<Group>)
    ensures Top20Groups(rows, CITY, t)
  {
    Top20Report(rows, CITY);
    Top20(GroupCount(rows, CITY))
  }

  /** `winning_birth_cities`, lines 231-232. */
  function TopBirthCities(rows: seq<Record>): (t: seq<Group>)
    ensures Top20Groups(rows, BIRTH_CITY, t)
  {
    Top20Report(rows, BIRTH_CITY);
    Top20(GroupCount(rows, BIRTH_CITY))
  }

  /** `df_country_city_school`, lines 243-244, largest first. */
  function CountryCitySchool(rows: seq<Record>): (s: seq<Group>)
    ensures DescendingGroups(rows, PLACE, s)
  {
    SortedDescendingGroups(rows, PLACE);
    SortBy(GroupCount(rows, PLACE), ByCountDescending)
  }

  /** A sorted group-by lists every group once, largest count first, and
      each group's count is the number of its rows with a prize. */
  lemma SortedDescendingGroups(rows: seq<Record>, cols: By)
    ensures DescendingGroups(rows, cols, SortBy(GroupCount(rows, cols), ByCountDescending))
  {
    var gs := GroupCount(rows, cols);
    var s := SortBy(gs, ByCountDescending);
    assert |s| == |multiset(s)| == |gs|;
    forall i, j | 0 <= i < j < |s|
      ensures s[i].count >= s[j].count
    {
      assert ByCountDescending(s[i]) <= ByCountDescending(s[j]);
    }
    SortedGroupsCounted(rows, cols);
    SortedGroupsCover(rows, cols);
  }

  lemma SortedGroupsCounted(rows: seq<Record>, cols: By)
    ensures forall g :: g in SortBy(GroupCount(rows, cols), ByCountDescending) ==>
      KeyOccurs(rows, cols, g.key) && g.count == CountKey(rows, cols, g.key)
  {
    var s := SortBy(GroupCount(rows, cols), ByCountDescending);
    forall g | g in s
      ensures KeyOccurs(rows, cols, g.key) && g.count == CountKey(rows, cols, g.key)
    {
      assert g in multiset(s);
      GroupCountMember(rows, cols, g);
    }
  }

  lemma SortedGroupsCover(rows: seq<Record>, cols: By)
    ensures forall k :: KeyOccurs(rows, cols, k) ==>
      exists g :: g in SortBy(GroupCount(rows, cols), ByCountDescending) && g.key == k
  {
    var gs := GroupCount(rows, cols);
    var s := SortBy(gs, ByCountDescending);
    forall k | KeyOccurs(rows, cols, k)
      ensures exists g :: g in s && g.key == k
    {
      var i :| 0 <= i < |gs| && KeysOf(gs)[i] == k;
      assert gs[i] in multiset(s);
    }
  }

  /** Every group in a top-20 slice is a key that occurs, with the number
      of its rows that have a prize. */
  lemma Top20Counts(rows: seq<Record>, cols: By, g: Group)
    requires g in Top20(GroupCount(rows, cols))
    ensures KeyOccurs(rows, cols, g.key)
    ensures g.count == CountKey(rows, cols, g.key)
  {
    Top20Selects(GroupCount(rows, cols));
    assert g in multiset(Top20(GroupCount(rows, cols)));
    GroupCountMember(rows, cols, g);
  }

  /** A key no group of the top-20 slice carries counts no more than any
      group kept. */
  lemma Top20LeftOut(rows: seq<Record>, cols: By, k: Key, h: Group)
    requires KeyOccurs(rows, cols, k)
    requires forall g :: g in Top20(GroupCount(rows, cols)) ==> g.key != k
    requires h in Top20(GroupCount(rows, cols))
    ensures CountKey(rows, cols, k) <= h.count
  {
    var gs := GroupCount(rows, cols);
    var t := Top20(gs);
    Top20Selects(gs);
    var i :| 0 <= i < |gs| && KeysOf(gs)[i] == k;
    var g := gs[i];
    assert g.key == k && g.count == CountKey(rows, cols, k);
    assert g in multiset(gs);
    assert g !in multiset(t);
    assert g in multiset(gs) - multiset(t);
  }

  /** A top-20 slice of a counting group-by: its size, its order, its
      distinct keys, its counts, and that no key left out counts more than a group kept. */
  lemma Top20Report(rows: seq<Record>, cols: By)
    ensures Top20Groups(rows, cols, Top20(GroupCount(rows, cols)))
  {
    var gs := GroupCount(rows, cols);
    var t := Top20(gs);
    Top20Selects(gs);
    DrawnKeysDistinct(gs, t);
    forall i, j | 0 <= i < j < |t|
      ensures t[i].count <= t[j].count
    {
      assert ByCount(t[i]) <= ByCount(t[j]);
    }
    forall g | g in t
      ensures KeyOccurs(rows, cols, g.key) && g.count == CountKey(rows, cols, g.key)
    {
      Top20Counts(rows, cols, g);
    }
    forall k, h | KeyOccurs(rows, cols, k) && (forall g :: g in t ==> g.key != k) && h in t
      ensures CountKey(rows, cols, k) <= h.count
    {
      Top20LeftOut(rows, cols, k, h);
    }
  }
}
