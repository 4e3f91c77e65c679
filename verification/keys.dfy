/** Group-by keys and the order in which pandas lists groups.
    `groupby` sorts its keys: integers numerically, strings the way Python
    compares `str` values (code point by code point, a proper prefix first),
    and multi-column keys as tuples, lexicographically. */
module Keys {

  /** One cell value used as a key, or a tuple of them built from pairs. */
  datatype Key = KInt(i: int) | KStr(s: string) | KPair(fst: Key, snd: Key)

  /** Python's `<` on strings. */
  predicate StrLess(s: string, t: string)
    decreases |s|
  {
    |t| > 0 && (|s| == 0 || s[0] < t[0] || (s[0] == t[0] && StrLess(s[1..], t[1..])))
  }

  lemma {:induction false} StrLessIrreflexive(s: string)
    ensures !StrLess(s, s)
    decreases |s|
  {
    if |s| > 0 {
      StrLessIrreflexive(s[1..]);
    }
  }

  lemma {:induction false} StrLessTransitive(s: string, t: string, u: string)
    requires StrLess(s, t) && StrLess(t, u)
    ensures StrLess(s, u)
    decreases |s|
  {
    if |s| > 0 && s[0] == t[0] && t[0] == u[0] {
      StrLessTransitive(s[1..], t[1..], u[1..]);
    }
  }

  lemma {:induction false} StrLessTotal(s: string, t: string)
    requires s != t
    ensures StrLess(s, t) || StrLess(t, s)
    decreases |s|
  {
    if |s| > 0 && |t| > 0 && s[0] == t[0] {
      assert s == [s[0]] + s[1..] && t == [t[0]] + t[1..];
      StrLessTotal(s[1..], t[1..]);
    }
  }

  /** Keys of different shapes never meet in one group-by; ranking them keeps the order total. */
  function Rank(k: Key): nat
  {
    match k
    case KInt(_) => 0
    case KStr(_) => 1
    case KPair(_, _) => 2
  }

  /** The order of groups in a pandas group-by result. */
  predicate Less(a: Key, b: Key)
    decreases a
  {
    match (a, b)
    case (KInt(x), KInt(y)) => x < y
    case (KStr(s), KStr(t)) => StrLess(s, t)
    case (KPair(a1, a2), KPair(b1, b2)) => Less(a1, b1) || (a1 == b1 && Less(a2, b2))
    case _ => Rank(a) < Rank(b)
  }

  lemma {:induction false} LessIrreflexive(a: Key)
    ensures !Less(a, a)
  {
    match a
    case KInt(_) =>
    case KStr(s) => StrLessIrreflexive(s);
    case KPair(a1, a2) => LessIrreflexive(a1); LessIrreflexive(a2);
  }

  lemma {:induction false} LessTransitive(a: Key, b: Key, c: Key)
    requires Less(a, b) && Less(b, c)
    ensures Less(a, c)
  {
    match (a, b, c)
    case (KStr(s), KStr(t), KStr(u)) => StrLessTransitive(s, t, u);
    case (KPair(a1, a2), KPair(b1, b2), KPair(c1, c2)) =>
      if Less(a1, b1) && Less(b1, c1) {
        LessTransitive(a1, b1, c1);
      } else if a1 == b1 && b1 == c1 {
        LessTransitive(a2, b2, c2);
      }
    case _ =>
  }

  lemma {:induction false} LessTotal(a: Key, b: Key)
    requires a != b
    ensures Less(a, b) || Less(b, a)
  {
    match (a, b)
    case (KStr(s), KStr(t)) => StrLessTotal(s, t);
    case (KPair(a1, a2), KPair(b1, b2)) =>
      if a1 != b1 {
        LessTotal(a1, b1);
      } else {
        LessTotal(a2, b2);
      }
    case _ =>
  }

  /** Distinct keys listed in group order. */
  ghost predicate StrictlyAscending(ks: seq<Key>)
  {
    forall i, j :: 0 <= i < j < |ks| ==> Less(ks[i], ks[j])
  }

  /** In a strictly ascending list, position order and key order agree. */
  lemma AscendingIndexOrder(ks: seq<Key>, i: int, j: int)
    requires StrictlyAscending(ks)
    requires 0 <= i < |ks| && 0 <= j < |ks|
    ensures Less(ks[i], ks[j]) <==> i < j
    ensures ks[i] == ks[j] <==> i == j
  {
    if j <= i {
      if j < i {
        if Less(ks[i], ks[j]) {
          LessTransitive(ks[j], ks[i], ks[j]);
          LessIrreflexive(ks[j]);
        }
      } else {
        LessIrreflexive(ks[i]);
      }
    } else {
      LessIrreflexive(ks[i]);
    }
  }

  lemma BelowHeadBelowAll(k: Key, ks: seq<Key>)
    requires StrictlyAscending(ks) && ks != [] && Less(k, ks[0])
    ensures StrictlyAscending([k] + ks)
  {
    forall j | 0 <= j < |ks|
      ensures Less(k, ks[j])
    {
      if j > 0 {
        LessTransitive(k, ks[0], ks[j]);
      }
    }
  }

  /** Adds a key to an ascending list of distinct keys, as a group-by does on meeting a row. */
  function Insert(k: Key, ks: seq<Key>): (r: seq<Key>)
    requires StrictlyAscending(ks)
    ensures StrictlyAscending(r)
    ensures forall x :: x in r <==> x == k || x in ks
  {
    if ks == [] then [k]
    else if k == ks[0] then ks
    else if Less(k, ks[0]) then
      BelowHeadBelowAll(k, ks);
      [k] + ks
    else
      LessTotal(k, ks[0]);
      var rest := Insert(k, ks[1..]);
      assert forall x :: x in rest ==> Less(ks[0], x) by {
        forall x | x in rest
          ensures Less(ks[0], x)
        {
          if x != k {
            var j :| 0 <= j < |ks[1..]| && ks[1..][j] == x;
            assert ks[j + 1] == x;
          }
        }
      }
      [ks[0]] + rest
  }
}
