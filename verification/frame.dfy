/** `df_data`, the table the script enriches in place: the loaded records
    plus the two columns it assigns later, `share_pct` (line 41) and
    `winning_age` (line 254). A derived column is None until assigned. */
module Frame {
  import opened Table
  import opened Numbers
  import opened Share
  import opened Ages

  class PrizeFrame {
    var rows: seq<Record>
    var sharePct: Option<seq<Num>>
    var winningAge: Option<seq<Option<int>>>

    /** Every assigned column holds what its assignment computed from the
        rows: `share_pct` the shares, `winning_age` the ages. */
    ghost predicate Valid()
      reads this
    {
      && (sharePct.Some? ==> ShareColumn(rows).Ok? && sharePct.value == ShareColumn(rows).value)
      && (winningAge.Some? ==> winningAge.value == AgeColumn(rows))
    }

    /** The table as read from the CSV file, with no derived column yet. */
    constructor (records: seq<Record>)
      ensures Valid()
      ensures rows == records && sharePct.None? && winningAge.None?
    {
      rows := records;
      sharePct := None;
      winningAge := None;
    }

    /** `df_data["share_pct"] = ...`: on success the column holds each
        row's share; if the computation raises, the table is left as it was
        and the error is returned. */
    method AddSharePct() returns (err: Option<ShareError>)
      requires Valid()
      modifies this
      ensures Valid()
      ensures rows == old(rows) && winningAge == old(winningAge)
      ensures ShareColumn(rows).Ok? ==> err.None? && sharePct == Some(ShareColumn(rows).value)
      ensures ShareColumn(rows).Err? ==> err == Some(ShareColumn(rows).error) && sharePct == old(sharePct)
      ensures ShareColumn(rows).Ok? ==> forall i :: 0 <= i < |rows| ==> sharePct.value[i] == RowShare(rows[i])
    {
      match ShareColumn(rows)
      case Ok(column) =>
        sharePct := Some(column);
        err := None;
      case Err(e) =>
        err := Some(e);
    }

    /** `df_data["winning_age"] = df_data["year"] - birth_years`. */
    method AddWinningAge()
      requires Valid()
      modifies this
      ensures Valid()
      ensures rows == old(rows) && sharePct == old(sharePct)
      ensures winningAge == Some(AgeColumn(rows))
      ensures forall i :: 0 <= i < |rows| ==>
        (winningAge.value[i].Some? <==> rows[i].year.Some? && rows[i].birthDate.Some?)
    {
      winningAge := Some(AgeColumn(rows));
    }

    /** `df_data.nlargest(n=1, columns="winning_age")`, line 258, read off the
        assigned column: the position of the first oldest winner. */
    function OldestWinner(): (r: Option<nat>)
      reads this
      requires Valid() && winningAge.Some?
      ensures r.None? <==> forall i :: 0 <= i < |rows| ==> WinningAge(rows[i]).None?
      ensures r.Some? ==> r.value < |rows| && WinningAge(rows[r.value]).Some?
      ensures r.Some? ==> forall i :: 0 <= i < |rows| && WinningAge(rows[i]).Some? ==>
        WinningAge(rows[i]).value <= WinningAge(rows[r.value]).value
    {
      Extreme(winningAge.value, Largest)
    }

    /** `df_data.nsmallest(n=1, columns="winning_age")`, line 259: the
        position of the first youngest winner. */
    function YoungestWinner(): (r: Option<nat>)
      reads this
      requires Valid() && winningAge.Some?
      ensures r.None? <==> forall i :: 0 <= i < |rows| ==> WinningAge(rows[i]).None?
      ensures r.Some? ==> r.value < |rows| && WinningAge(rows[r.value]).Some?
      ensures r.Some? ==> forall i :: 0 <= i < |rows| && WinningAge(rows[i]).Some? ==>
        WinningAge(rows[r.value]).value <= WinningAge(rows[i]).value
    {
      Extreme(winningAge.value, Smallest)
    }
  }
}
