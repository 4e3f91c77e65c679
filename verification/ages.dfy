/** The `winning_age` column (`year` minus the birth year) and the rows
    `nlargest(n=1, columns="winning_age")` and `nsmallest(...)` pick: the
    first row holding the largest (smallest) age, skipping missing ages. */
module Ages {
  import opened Table

  /** `df_data["year"] - df_data.birth_date.dt.year` on one row: missing
      when either the year or the birth date is missing. */
  function WinningAge(r: Record): (a: Option<int>)
    ensures a.Some? <==> r.year.Some? && r.birthDate.Some?
    ensures a.Some? ==> a.value + r.birthDate.value.year == r.year.value
  {
    if r.year.Some? && r.birthDate.Some? then Some(r.year.value - r.birthDate.value.year) else None
  }

  /** The whole `winning_age` column. */
  function AgeColumn(rows: seq<Record>): (ages: seq<Option<int>>)
    ensures |ages| == |rows|
    ensures forall i :: 0 <= i < |rows| ==> (ages[i].Some? <==> rows[i].year.Some? && rows[i].birthDate.Some?)
    ensures forall i :: 0 <= i < |rows| && ages[i].Some? ==> ages[i].value + rows[i].birthDate.value.year == rows[i].year.value
  {
    seq(|rows|, i requires 0 <= i < |rows| => WinningAge(rows[i]))
  }

  datatype Direction = Largest | Smallest

  /** a beats b in the given direction (strictly). */
  predicate Beats(dir: Direction, a: int, b: int)
  {
    if dir == Largest then a > b else a < b
  }

  /** The row `nlargest(n=1)` (Largest) or `nsmallest(n=1)` (Smallest)
      returns, as its position: None when every age is missing; otherwise
      no age beats it, and every earlier row's age it beats, so among ties
      the first row is the one returned. */
  function Extreme(ages: seq<Option<int>>, dir: Direction): (r: Option<nat>)
    ensures r.None? <==> forall i :: 0 <= i < |ages| ==> ages[i].None?
    ensures r.Some? ==> r.value < |ages| && ages[r.value].Some?
    ensures r.Some? ==> forall j :: 0 <= j < |ages| && ages[j].Some? ==> !Beats(dir, ages[j].value, ages[r.value].value)
    ensures r.Some? ==> forall j :: 0 <= j < r.value && ages[j].Some? ==> Beats(dir, ages[r.value].value, ages[j].value)
  {
    if ages == [] then None
    else
      var n := |ages| - 1;
      var best := Extreme(ages[..n], dir);
      assert forall j :: 0 <= j < n ==> ages[..n][j] == ages[j];
      if ages[n].Some? && (best.None? || Beats(dir, ages[n].value, ages[best.value].value)) then Some(n)
      else best
  }

  /** `oldest`, line 258: the first row of the greatest age, if any row has one. */
  function Oldest(rows: seq<Record>): (r: Option<nat>)
    ensures r.None? <==> forall i :: 0 <= i < |rows| ==> WinningAge(rows[i]).None?
    ensures r.Some? ==> r.value < |rows| && WinningAge(rows[r.value]).Some?
    ensures r.Some? ==> forall i :: 0 <= i < |rows| && WinningAge(rows[i]).Some? ==>
      WinningAge(rows[i]).value <= WinningAge(rows[r.value]).value
    ensures r.Some? ==> forall i :: 0 <= i < r.value && WinningAge(rows[i]).Some? ==>
      WinningAge(rows[i]).value < WinningAge(rows[r.value]).value
  {
    var ages := AgeColumn(rows);
    assert forall i :: 0 <= i < |rows| ==> ages[i] == WinningAge(rows[i]);
    Extreme(ages, Largest)
  }

  /** `youngest`, line 259: the first row of the least age, if any row has one. */
  function Youngest(rows: seq<Record>): (r: Option<nat>)
    ensures r.None? <==> forall i :: 0 <= i < |rows| ==> WinningAge(rows[i]).None?
    ensures r.Some? ==> r.value < |rows| && WinningAge(rows[r.value]).Some?
    ensures r.Some? ==> forall i :: 0 <= i < |rows| && WinningAge(rows[i]).Some? ==>
      WinningAge(rows[r.value]).value <= WinningAge(rows[i]).value
    ensures r.Some? ==> forall i :: 0 <= i < r.value && WinningAge(rows[i]).Some? ==>
      WinningAge(rows[r.value]).value < WinningAge(rows[i]).value
  {
    var ages := AgeColumn(rows);
    assert forall i :: 0 <= i < |rows| ==> ages[i] == WinningAge(rows[i]);
    Extreme(ages, Smallest)
  }

  /** The oldest and the youngest winner both exist exactly when some row
      has an age; the oldest carries the maximum and the youngest the
      minimum age of all rows with an age. */
  lemma OldestYoungest(rows: seq<Record>)
    ensures Oldest(rows).Some? <==> Youngest(rows).Some?
    ensures Oldest(rows).Some? <==> exists i :: 0 <= i < |rows| && rows[i].year.Some? && rows[i].birthDate.Some?
    ensures Oldest(rows).Some? ==>
      var o := WinningAge(rows[Oldest(rows).value]).value;
      var y := WinningAge(rows[Youngest(rows).value]).value;
      && y <= o
      && forall i :: 0 <= i < |rows| && WinningAge(rows[i]).Some? ==> y <= WinningAge(rows[i]).value <= o
  {
    var ages := AgeColumn(rows);
    if Oldest(rows).Some? {
      var o := Oldest(rows).value;
      assert ages[o] == WinningAge(rows[o]);
      var y := Youngest(rows).value;
      assert ages[y] == WinningAge(rows[y]);
      forall i | 0 <= i < |rows| && WinningAge(rows[i]).Some?
        ensures WinningAge(rows[y]).value <= WinningAge(rows[i]).value <= WinningAge(rows[o]).value
      {
        assert ages[i] == WinningAge(rows[i]);
      }
    }
    if exists i :: 0 <= i < |rows| && rows[i].year.Some? && rows[i].birthDate.Some? {
      var i :| 0 <= i < |rows| && rows[i].year.Some? && rows[i].birthDate.Some?;
      assert ages[i].Some?;
    }
  }
}
