/** `df.groupby(cols).agg({"prize": pd.Series.count})`: one group per key
    that occurs, in key order; rows with a missing key cell are dropped; a
    group's count is the number of its rows whose prize cell is present. */
module GroupBy {
  import opened Keys
  import opened Table

  datatype Group = Group(key: Key, count: nat)

  /** The rows of group k that `count` counts. */
  function CountKey(rows: seq<Record>, cols: By, k: Key): nat
  {
    if rows == [] then 0
    else (if KeyOf(rows[0], cols) == Some(k) && rows[0].prize.Some? then 1 else 0) + CountKey(rows[1..], cols, k)
  }

  /** The rows counted in any of the groups ks. */
  function CountKeyIn(rows: seq<Record>, cols: By, ks: seq<Key>): nat
  {
    if rows == [] then 0
    else
      var k := KeyOf(rows[0], cols);
      (if k.Some? && k.value in ks && rows[0].prize.Some? then 1 else 0) + CountKeyIn(rows[1..], cols, ks)
  }

  /** The rows counted in some group: key present and prize present. */
  function CountKeyed(rows: seq<Record>, cols: By): (n: nat)
    ensures n <= |rows|
  {
    if rows == [] then 0
    else (if KeyOf(rows[0], cols).Some? && rows[0].prize.Some? then 1 else 0) + CountKeyed(rows[1..], cols)
  }

  ghost predicate KeyOccurs(rows: seq<Record>, cols: By, k: Key)
  {
    exists i :: 0 <= i < |rows| && KeyOf(rows[i], cols) == Some(k)
  }

  /** The group keys, each once, in pandas' group order. */
  function DistinctKeys(rows: seq<Record>, cols: By): (ks: seq<Key>)
    ensures StrictlyAscending(ks)
    ensures forall k :: k in ks <==> KeyOccurs(rows, cols, k)
  {
    if rows == [] then []
    else
      var rest := DistinctKeys(rows[1..], cols);
      assert forall k :: KeyOccurs(rows[1..], cols, k) ==> KeyOccurs(rows, cols, k) by {
        forall k | KeyOccurs(rows[1..], cols, k)
          ensures KeyOccurs(rows, cols, k)
        {
          var i :| 0 <= i < |rows[1..]| && KeyOf(rows[1..][i], cols) == Some(k);
          assert KeyOf(rows[i + 1], cols) == Some(k);
        }
      }
      assert forall k :: KeyOccurs(rows, cols, k) ==> KeyOf(rows[0], cols) == Some(k) || KeyOccurs(rows[1..], cols, k) by {
        forall k | KeyOccurs(rows, cols, k) && KeyOf(rows[0], cols) != Some(k)
          ensures KeyOccurs(rows[1..], cols, k)
        {
          var i :| 0 <= i < |rows| && KeyOf(rows[i], cols) == Some(k);
          assert rows[1..][i - 1] == rows[i];
        }
      }
      match KeyOf(rows[0], cols)
      case None => rest
      case Some(k) => Insert(k, rest)
  }

  function KeysOf(gs: seq<Group>): (ks: seq<Key>)
    ensures |ks| == |gs|
  {
    seq(|gs|, i requires 0 <= i < |gs| => gs[i].key)
  }

  /** Every group carries the count of its own rows. */
  ghost predicate CountsMatch(rows: seq<Record>, cols: By, gs: seq<Group>)
  {
    forall i :: 0 <= i < |gs| ==> gs[i].count == CountKey(rows, cols, gs[i].key)
  }

  /** The group-by result. */
  function GroupCount(rows: seq<Record>, cols: By): (gs: seq<Group>)
    ensures StrictlyAscending(KeysOf(gs))
    ensures forall k :: k in KeysOf(gs) <==> KeyOccurs(rows, cols, k)
    ensures CountsMatch(rows, cols, gs)
  {
    var ks := DistinctKeys(rows, cols);
    var gs := seq(|ks|, i requires 0 <= i < |ks| => Group(ks[i], CountKey(rows, cols, ks[i])));
    assert KeysOf(gs) == ks;
    gs
  }

  function SumCounts(gs: seq<Group>): nat
  {
    if gs == [] then 0 else gs[0].count + SumCounts(gs[1..])
  }

  lemma {:induction false} CountKeyInCons(rows: seq<Record>, cols: By, k: Key, ks: seq<Key>)
    requires k !in ks
    ensures CountKeyIn(rows, cols, [k] + ks) == CountKey(rows, cols, k) + CountKeyIn(rows, cols, ks)
  {
    if rows != [] {
      CountKeyInCons(rows[1..], cols, k, ks);
    }
  }

  /** Summing the counts of distinct groups counts the rows that fall in any of them. */
  lemma {:induction false} SumCountsIsCountKeyIn(rows: seq<Record>, cols: By, gs: seq<Group>)
    requires StrictlyAscending(KeysOf(gs))
    requires CountsMatch(rows, cols, gs)
    ensures SumCounts(gs) == CountKeyIn(rows, cols, KeysOf(gs))
  {
    if gs == [] {
      CountKeyInNone(rows, cols);
    } else {
      var ks := KeysOf(gs);
      assert KeysOf(gs[1..]) == ks[1..];
      assert ks == [ks[0]] + ks[1..];
      if ks[0] in ks[1..] {
        var j :| 0 <= j < |ks[1..]| && ks[1..][j] == ks[0];
        AscendingIndexOrder(ks, 0, j + 1);
      }
      SumCountsIsCountKeyIn(rows, cols, gs[1..]);
      CountKeyInCons(rows, cols, ks[0], ks[1..]);
    }
  }

  lemma {:induction false} CountKeyInNone(rows: seq<Record>, cols: By)
    ensures CountKeyIn(rows, cols, []) == 0
  {
    if rows != [] {
      CountKeyInNone(rows[1..], cols);
    }
  }

  /** Groups covering every key that occurs count every keyed row. */
  lemma {:induction false} CountKeyInAll(rows: seq<Record>, cols: By, ks: seq<Key>)
    requires forall i :: 0 <= i < |rows| && KeyOf(rows[i], cols).Some? ==> KeyOf(rows[i], cols).value in ks
    ensures CountKeyIn(rows, cols, ks) == CountKeyed(rows, cols)
  {
    if rows != [] {
      assert forall i :: 1 <= i < |rows| ==> rows[1..][i - 1] == rows[i];
      CountKeyInAll(rows[1..], cols, ks);
    }
  }

  /** The counts of a group-by add up to the rows whose key and prize are
      both present: rows with a missing key are in no group, and rows with a
      missing prize are in a group but not counted. */
  lemma GroupCountTotal(rows: seq<Record>, cols: By)
    ensures SumCounts(GroupCount(rows, cols)) == CountKeyed(rows, cols)
  {
    var gs := GroupCount(rows, cols);
    SumCountsIsCountKeyIn(rows, cols, gs);
    forall i | 0 <= i < |rows| && KeyOf(rows[i], cols).Some?
      ensures KeyOf(rows[i], cols).value in KeysOf(gs)
    {
      assert KeyOccurs(rows, cols, KeyOf(rows[i], cols).value);
    }
    CountKeyInAll(rows, cols, KeysOf(gs));
  }

  /** A key that occurs in no row has no rows to count. */
  lemma {:induction false} CountKeyAbsent(rows: seq<Record>, cols: By, k: Key)
    requires !KeyOccurs(rows, cols, k)
    ensures CountKey(rows, cols, k) == 0
  {
    if rows != [] {
      CountKeyAbsent(rows[1..], cols, k);
    }
  }

  /** A group taken from a group-by result, through any reordering, is a
      key that occurs and carries the count of its own rows. */
  lemma GroupCountMember(rows: seq<Record>, cols: By, g: Group)
    requires g in multiset(GroupCount(rows, cols))
    ensures KeyOccurs(rows, cols, g.key)
    ensures g.count == CountKey(rows, cols, g.key)
  {
    var gs := GroupCount(rows, cols);
    var i :| 0 <= i < |gs| && gs[i] == g;
    assert KeysOf(gs)[i] == g.key;
  }
}
