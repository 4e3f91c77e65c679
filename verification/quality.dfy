/** Data-quality diagnostics on the raw table (duplicate rows, missing
    cells) and the boolean-mask selection of laureates who won more than once. */
module Quality {
  import opened Keys
  import opened Table

  /** `df.duplicated()`: with the default keep="first", a row is flagged when
      an identical row (missing cells compare equal) stands before it. */
  function Duplicated(rows: seq<Record>): (flags: seq<bool>)
    ensures |flags| == |rows|
  {
    seq(|rows|, i requires 0 <= i < |rows| => rows[i] in rows[..i])
  }

  /** `df.duplicated().values.any()`: some two distinct positions hold the same record. */
  function HasDuplicates(rows: seq<Record>): (b: bool)
    ensures b <==> exists i, j :: 0 <= i < j < |rows| && rows[i] == rows[j]
  {
    var flags := Duplicated(rows);
    assert (true in flags) <==> exists i, j :: 0 <= i < j < |rows| && rows[i] == rows[j] by {
      if true in flags {
        var j :| 0 <= j < |flags| && flags[j];
        var i :| 0 <= i < j && rows[..j][i] == rows[j];
      }
      if i, j :| 0 <= i < j < |rows| && rows[i] == rows[j] {
        assert rows[..j][i] == rows[j];
        assert flags[j];
      }
    }
    true in flags
  }

  /** `df.isna().sum()` for one column: the number of rows whose cell is missing. */
  function MissingCount(rows: seq<Record>, c: Column): (n: nat)
    ensures n <= |rows|
    ensures n == 0 <==> forall i :: 0 <= i < |rows| ==> Cell(rows[i], c).Some?
    ensures n == |rows| <==> forall i :: 0 <= i < |rows| ==> Cell(rows[i], c).None?
  {
    if rows == [] then 0
    else
      var rest := MissingCount(rows[1..], c);
      assert forall i :: 1 <= i < |rows| ==> rows[i] == rows[1..][i - 1];
      (if Cell(rows[0], c).None? then 1 else 0) + rest
  }

  /** Counting missing cells commutes with splitting the table. */
  lemma {:induction false} MissingCountAppend(a: seq<Record>, b: seq<Record>, c: Column)
    ensures MissingCount(a + b, c) == MissingCount(a, c) + MissingCount(b, c)
  {
    if a == [] {
      assert a + b == b;
    } else {
      assert (a + b)[0] == a[0] && (a + b)[1..] == a[1..] + b;
      MissingCountAppend(a[1..], b, c);
    }
  }

  /** `df.isna().sum()`: the missing count of every column. */
  function MissingCounts(rows: seq<Record>): (m: map<Column, nat>)
    ensures forall c :: c in m && m[c] <= |rows|
  {
    forall c ensures c in COLUMNS { ColumnsComplete(c); }
    map c | c in COLUMNS :: MissingCount(rows, c)
  }

  /** `df.isna().values.any()`: some cell of some row is missing. */
  function AnyMissing(rows: seq<Record>): bool
  {
    exists i, c | 0 <= i < |rows| && c in COLUMNS :: Cell(rows[i], c).None?
  }

  /** The "NAN values exist" flag is set exactly when some column's missing count is positive. */
  lemma AnyMissingIffSomeCount(rows: seq<Record>)
    ensures AnyMissing(rows) <==> exists c :: MissingCounts(rows)[c] > 0
  {
    if AnyMissing(rows) {
      var i, c :| 0 <= i < |rows| && c in COLUMNS && Cell(rows[i], c).None?;
      assert MissingCounts(rows)[c] > 0;
    }
    if c :| MissingCounts(rows)[c] > 0 {
      ColumnsComplete(c);
      var i :| 0 <= i < |rows| && Cell(rows[i], c).None?;
    }
  }

  /** `duplicated(subset=[column], keep=False)`: every position whose value occurs at least twice. */
  function DuplicatedKeepNone<T(==)>(values: seq<T>): (flags: seq<bool>)
    ensures |flags| == |values|
  {
    seq(|values|, i requires 0 <= i < |values| => multiset(values)[values[i]] >= 2)
  }

  /** A value occurs at least twice exactly when another position holds it too. */
  lemma DuplicatedKeepNoneAt<T>(values: seq<T>, i: int)
    requires 0 <= i < |values|
    ensures DuplicatedKeepNone(values)[i] <==> exists j :: 0 <= j < |values| && j != i && values[j] == values[i]
  {
    var x := values[i];
    assert values == values[..i] + [x] + values[i + 1..];
    assert multiset(values)[x] == multiset(values[..i])[x] + 1 + multiset(values[i + 1..])[x];
    if multiset(values)[x] >= 2 {
      if x in values[..i] {
        var j :| 0 <= j < i && values[..i][j] == x;
      } else {
        assert x in multiset(values[i + 1..]);
        var j :| 0 <= j < |values[i + 1..]| && values[i + 1..][j] == x;
        assert values[i + 1 + j] == x;
      }
    }
    if j :| 0 <= j < |values| && j != i && values[j] == x {
      if j < i {
        assert values[..i][j] == x;
      } else {
        assert values[i + 1..][j - i - 1] == x;
      }
    }
  }

  /** The positions a boolean mask selects, in ascending order. */
  function Positions(flags: seq<bool>): (idx: seq<nat>)
    ensures forall k :: 0 <= k < |idx| ==> idx[k] < |flags| && flags[idx[k]]
    ensures forall k, l :: 0 <= k < l < |idx| ==> idx[k] < idx[l]
    ensures forall i :: 0 <= i < |flags| && flags[i] ==> i in idx
  {
    if flags == [] then []
    else
      var rest := Positions(flags[..|flags| - 1]);
      if flags[|flags| - 1] then rest + [|flags| - 1] else rest
  }

  /** `df[mask]`: the rows the mask selects, in table order. */
  function Mask(rows: seq<Record>, flags: seq<bool>): (r: seq<Record>)
    requires |flags| == |rows|
  {
    var idx := Positions(flags);
    seq(|idx|, k requires 0 <= k < |idx| => rows[idx[k]])
  }

  function Names(rows: seq<Record>): (names: seq<Option<string>>)
    ensures |names| == |rows|
  {
    seq(|rows|, i requires 0 <= i < |rows| => rows[i].fullName)
  }

  /** `df_data[df_data.duplicated(subset=["full_name"], keep=False)]`:
      rows of the table whose name occurs at least twice in the name column. */
  function MultiWinners(rows: seq<Record>): (r: seq<Record>)
    ensures forall k :: 0 <= k < |r| ==> r[k] in rows && multiset(Names(rows))[r[k].fullName] >= 2
  {
    var names := Names(rows);
    var idx := Positions(DuplicatedKeepNone(names));
    assert forall k :: 0 <= k < |idx| ==> names[idx[k]] == rows[idx[k]].fullName;
    Mask(rows, DuplicatedKeepNone(names))
  }

  /** The multi-winner table holds exactly the rows whose name occurs at
      another position too, each once, in table order. */
  lemma MultiWinnersExact(rows: seq<Record>)
    ensures var idx := Positions(DuplicatedKeepNone(Names(rows)));
      && |MultiWinners(rows)| == |idx|
      && (forall k :: 0 <= k < |idx| ==> idx[k] < |rows| && MultiWinners(rows)[k] == rows[idx[k]])
      && (forall k, l :: 0 <= k < l < |idx| ==> idx[k] < idx[l])
      && (forall i :: 0 <= i < |rows| ==>
            (i in idx <==> exists j :: 0 <= j < |rows| && j != i && rows[j].fullName == rows[i].fullName))
  {
    var names := Names(rows);
    var idx := Positions(DuplicatedKeepNone(names));
    forall i | 0 <= i < |rows|
      ensures i in idx <==> exists j :: 0 <= j < |rows| && j != i && rows[j].fullName == rows[i].fullName
    {
      DuplicatedKeepNoneAt(names, i);
      if i in idx {
        var k :| 0 <= k < |idx| && idx[k] == i;
        var j :| 0 <= j < |names| && j != i && names[j] == names[i];
        assert rows[j].fullName == rows[i].fullName;
      }
      if j :| 0 <= j < |rows| && j != i && rows[j].fullName == rows[i].fullName {
        assert names[j] == names[i];
      }
    }
  }

  /** No laureate with a single award survives the multi-winner filter. */
  lemma MultiWinnersRepeat(rows: seq<Record>, x: Record)
    requires x in MultiWinners(rows)
    ensures exists i, j :: 0 <= i < j < |rows| && rows[i].fullName == x.fullName && rows[j].fullName == x.fullName
  {
    MultiWinnersExact(rows);
    var idx := Positions(DuplicatedKeepNone(Names(rows)));
    var k :| 0 <= k < |MultiWinners(rows)| && MultiWinners(rows)[k] == x;
    var i := idx[k];
    var j :| 0 <= j < |rows| && j != i && rows[j].fullName == rows[i].fullName;
    if j < i {
      assert 0 <= j < i < |rows|;
    } else {
      assert 0 <= i < j < |rows|;
    }
  }
}
