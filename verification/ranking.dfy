/** `sort_values(by=...)` and the `[-20:]` slice that keeps the twenty
    largest groups. pandas sorts a single column with quicksort, which is not
    stable, so only the order of the sort keys is specified: the model sorts
    by insertion and proves no more than "ascending and a permutation". */
module Ranking {
  import opened Keys
  import opened GroupBy

  ghost predicate AscendingBy<T>(s: seq<T>, key: T -> int)
  {
    forall i, j :: 0 <= i < j < |s| ==> key(s[i]) <= key(s[j])
  }

  lemma PrependAscending<T>(x: T, s: seq<T>, key: T -> int)
    requires AscendingBy(s, key)
    requires forall y :: y in s ==> key(x) <= key(y)
    ensures AscendingBy([x] + s, key)
  {
    forall i, j | 0 <= i < j < |[x] + s|
      ensures key(([x] + s)[i]) <= key(([x] + s)[j])
    {
      assert ([x] + s)[j] == s[j - 1];
      if i > 0 {
        assert ([x] + s)[i] == s[i - 1];
      }
    }
  }

  function InsertBy<T>(x: T, s: seq<T>, key: T -> int): (r: seq<T>)
    requires AscendingBy(s, key)
    ensures AscendingBy(r, key)
    ensures multiset(r) == multiset(s) + multiset{x}
  {
    if s == [] then [x]
    else if key(x) <= key(s[0]) then
      assert forall y :: y in s ==> key(x) <= key(y);
      PrependAscending(x, s, key);
      [x] + s
    else
      var rest := InsertBy(x, s[1..], key);
      assert s == [s[0]] + s[1..];
      assert forall y :: y in rest ==> key(s[0]) <= key(y) by {
        forall y | y in rest
          ensures key(s[0]) <= key(y)
        {
          assert y in multiset(rest);
          if y != x {
            assert y in multiset(s[1..]);
          }
        }
      }
      PrependAscending(s[0], rest, key);
      [s[0]] + rest
  }

  /** `sort_values(by=key)`: ascending by key, the same rows. A descending
      sort is this sort on the negated key. */
  function SortBy<T>(s: seq<T>, key: T -> int): (r: seq<T>)
    ensures AscendingBy(r, key)
    ensures multiset(r) == multiset(s)
  {
    if s == [] then []
    else
      assert s == [s[0]] + s[1..];
      InsertBy(s[0], SortBy(s[1..], key), key)
  }

  function Min(a: int, b: int): int
  {
    if a <= b then a else b
  }

  /** `frame[-n:]`: the last n rows, or all of them when there are fewer. */
  function TakeLast<T>(s: seq<T>, n: nat): (r: seq<T>)
  {
    s[|s| - Min(n, |s|)..]
  }

  const TOP: nat := 20

  function ByCount(g: Group): int
  {
    g.count
  }

  /** The key of `sort_values(by="prize", ascending=False)`. */
  function ByCountDescending(g: Group): int
  {
    -(g.count as int)
  }

  /** `groups.sort_values(by="prize")[-20:]`. */
  function Top20(groups: seq<Group>): seq<Group>
  {
    TakeLast(SortBy(groups, ByCount), TOP)
  }

  /** Cutting a sorted list in two leaves no later element below an earlier one. */
  lemma CutOrder(s: seq<Group>, cut: nat, g: Group, h: Group)
    requires AscendingBy(s, ByCount) && cut <= |s|
    requires g in s[..cut] && h in s[cut..]
    ensures g.count <= h.count
  {
    var i :| 0 <= i < cut && s[..cut][i] == g;
    var j :| 0 <= j < |s| - cut && s[cut..][j] == h;
    assert s[i] == g && s[cut + j] == h;
    assert ByCount(s[i]) <= ByCount(s[cut + j]);
  }

  /** The top-20 slice is the tail of the sorted groups past the cut. */
  lemma Top20Split(groups: seq<Group>)
    ensures var s := SortBy(groups, ByCount);
      var cut := |s| - Min(TOP, |s|);
      && |s| == |groups|
      && Top20(groups) == s[cut..]
      && multiset(groups) == multiset(s[..cut]) + multiset(Top20(groups))
  {
    var s := SortBy(groups, ByCount);
    var cut := |s| - Min(TOP, |s|);
    assert |s| == |multiset(s)| == |groups|;
    assert s == s[..cut] + s[cut..];
  }

  lemma SuffixAscending(s: seq<Group>, cut: nat)
    requires AscendingBy(s, ByCount) && cut <= |s|
    ensures AscendingBy(s[cut..], ByCount)
  {
    forall i, j | 0 <= i < j < |s| - cut
      ensures ByCount(s[cut..][i]) <= ByCount(s[cut..][j])
    {
      assert s[cut..][i] == s[cut + i] && s[cut..][j] == s[cut + j];
    }
  }

  /** A group left out of the top-20 slice counts no more than one kept. */
  lemma Top20Excluded(groups: seq<Group>, g: Group, h: Group)
    requires g in multiset(groups) - multiset(Top20(groups))
    requires h in Top20(groups)
    ensures g.count <= h.count
  {
    var s := SortBy(groups, ByCount);
    var cut := |s| - Min(TOP, |s|);
    Top20Split(groups);
    assert g in multiset(s[..cut]);
    CutOrder(s, cut, g, h);
  }

  /** The top-20 slice holds min(20, #groups) of the groups, ascending by
      count, and every group left out counts no more than any group kept. */
  lemma Top20Selects(groups: seq<Group>)
    ensures var t := Top20(groups);
      && |t| == Min(TOP, |groups|)
      && AscendingBy(t, ByCount)
      && multiset(t) <= multiset(groups)
      && forall g :: g in multiset(groups) - multiset(t) ==> forall h :: h in t ==> g.count <= h.count
  {
    var s := SortBy(groups, ByCount);
    var cut := |s| - Min(TOP, |s|);
    Top20Split(groups);
    SuffixAscending(s, cut);
    forall g, h | g in multiset(groups) - multiset(Top20(groups)) && h in Top20(groups)
      ensures g.count <= h.count
    {
      Top20Excluded(groups, g, h);
    }
  }

  /** A sequence with no repeated element holds each value at most once. */
  lemma {:induction false} DistinctOnce<T>(s: seq<T>, x: T)
    requires forall i, j :: 0 <= i < j < |s| ==> s[i] != s[j]
    ensures multiset(s)[x] <= 1
  {
    if s != [] {
      assert s == [s[0]] + s[1..];
      assert forall i, j :: 0 <= i < j < |s[1..]| ==> s[1..][i] == s[i + 1] && s[1..][j] == s[j + 1];
      DistinctOnce(s[1..], x);
      if s[0] == x {
        assert x !in s[1..];
      }
    }
  }

  /** A value at two positions occurs at least twice. */
  lemma TwiceInSeq<T>(s: seq<T>, i: nat, j: nat)
    requires i < j < |s| && s[i] == s[j]
    ensures multiset(s)[s[i]] >= 2
  {
    assert s == s[..j] + s[j..];
    assert s[..j][i] == s[i] && s[j..][0] == s[j];
    assert multiset(s) == multiset(s[..j]) + multiset(s[j..]);
  }

  /** Groups drawn from a group-by result, at most as often as they occur
      there, carry pairwise distinct keys. */
  lemma DrawnKeysDistinct(gs: seq<Group>, t: seq<Group>)
    requires StrictlyAscending(KeysOf(gs))
    requires multiset(t) <= multiset(gs)
    ensures forall i, j :: 0 <= i < j < |t| ==> t[i].key != t[j].key
  {
    var ks := KeysOf(gs);
    forall i, j | 0 <= i < j < |gs|
      ensures gs[i] != gs[j]
    {
      AscendingIndexOrder(ks, i, j);
    }
    forall i, j | 0 <= i < j < |t|
      ensures t[i].key != t[j].key
    {
      assert t[i] in multiset(gs) && t[j] in multiset(gs);
      var p :| 0 <= p < |gs| && gs[p] == t[i];
      var q :| 0 <= q < |gs| && gs[q] == t[j];
      if t[i].key == t[j].key {
        AscendingIndexOrder(ks, p, q);
        TwiceInSeq(t, i, j);
        DistinctOnce(gs, t[i]);
        assert false;
      }
    }
  }
}
