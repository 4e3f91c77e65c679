/** The `share_pct` column: `prize_share` split on "/" into its first two
    parts, each converted with `pd.to_numeric`, and the first divided by the
    second as floats. */
module Share {
  import opened Table
  import opened Numbers

  /** Python's `str.split("/")`: the text between separators, empty parts included. */
  function Split(s: string): (parts: seq<string>)
    ensures |parts| >= 1
    ensures forall k :: 0 <= k < |parts| ==> '/' !in parts[k]
  {
    if s == [] then [""]
    else
      var rest := Split(s[1..]);
      if s[0] == '/' then [""] + rest
      else [[s[0]] + rest[0]] + rest[1..]
  }

  /** `"/".join(parts)`. */
  function Join(parts: seq<string>): string
    requires |parts| >= 1
  {
    if |parts| == 1 then parts[0] else parts[0] + "/" + Join(parts[1..])
  }

  /** Splitting loses nothing: joining the parts gives the text back. */
  lemma {:induction false} JoinSplit(s: string)
    ensures Join(Split(s)) == s
  {
    if s != [] {
      var rest := Split(s[1..]);
      JoinSplit(s[1..]);
      if s[0] == '/' {
        assert ([""] + rest)[1..] == rest;
      } else {
        var parts := [[s[0]] + rest[0]] + rest[1..];
        if |rest| == 1 {
          assert Join(parts) == [s[0]] + rest[0];
        } else {
          assert parts[1..] == rest[1..];
          assert Join(rest) == rest[0] + "/" + Join(rest[1..]);
        }
      }
    }
  }

  lemma {:induction false} SplitNoSeparator(a: string)
    requires '/' !in a
    ensures Split(a) == [a]
  {
    if a != [] {
      SplitNoSeparator(a[1..]);
      assert [a[0]] + a[1..] == a;
    }
  }

  lemma {:induction false} SplitFirst(a: string, t: string)
    requires '/' !in a
    ensures Split(a + "/" + t) == [a] + Split(t)
  {
    if a == [] {
      assert a + "/" + t == ['/'] + t;
      assert (['/'] + t)[1..] == t;
    } else {
      assert (a + "/" + t)[1..] == a[1..] + "/" + t;
      SplitFirst(a[1..], t);
      assert [a[0]] + a[1..] == a;
    }
  }

  /** Text with exactly one separator splits into the two sides. */
  lemma SplitPair(a: string, b: string)
    requires '/' !in a && '/' !in b
    ensures Split(a + "/" + b) == [a, b]
  {
    SplitFirst(a, b);
    SplitNoSeparator(b);
  }

  predicate IsDigit(ch: char)
  {
    '0' <= ch <= '9'
  }

  predicate IsDigits(s: string)
  {
    |s| > 0 && forall k :: 0 <= k < |s| ==> IsDigit(s[k])
  }

  function DigitsValue(s: string): nat
    requires forall k :: 0 <= k < |s| ==> IsDigit(s[k])
  {
    if s == [] then 0
    else
      assert IsDigit(s[|s| - 1]);
      DigitsValue(s[..|s| - 1]) * 10 + (s[|s| - 1] as int - '0' as int)
  }

  /** `pd.to_numeric` on one cell, for the unsigned decimal integers the
      column holds; None where it would raise. */
  function ParseNumber(s: string): (n: Option<nat>)
    ensures n.Some? <==> IsDigits(s)
  {
    if IsDigits(s) then Some(DigitsValue(s)) else None
  }

  /** The decimal numeral of a count, as `str(n)` writes it. */
  function ShowNat(n: nat): (s: string)
    ensures IsDigits(s)
  {
    if n < 10 then [('0' as int + n) as char]
    else ShowNat(n / 10) + [('0' as int + n % 10) as char]
  }

  /** Converting a written count gives the count back. */
  lemma {:induction false} ParseShowNat(n: nat)
    ensures ParseNumber(ShowNat(n)) == Some(n)
  {
    var s := ShowNat(n);
    if n < 10 {
      assert s[..|s| - 1] == [];
      assert DigitsValue(s) == n;
    } else {
      ParseShowNat(n / 10);
      assert s[..|s| - 1] == ShowNat(n / 10);
      assert s[|s| - 1] as int - '0' as int == n % 10;
    }
  }

  /** Column 0 of the split: the text before the first "/". */
  function NumeratorText(r: Record): Option<string>
  {
    if r.prizeShare.None? then None else Some(Split(r.prizeShare.value)[0])
  }

  /** Column 1 of the split: missing when the row has no "/". */
  function DenominatorText(r: Record): Option<string>
  {
    if r.prizeShare.None? then None
    else
      var parts := Split(r.prizeShare.value);
      if |parts| >= 2 then Some(parts[1]) else None
  }

  /** A cell `pd.to_numeric` accepts: missing, empty (the side of a "/"
      with nothing on it), or a number. */
  predicate Converts(t: Option<string>)
  {
    t.None? || t.value == "" || ParseNumber(t.value).Some?
  }

  /** `pd.to_numeric` on a cell it accepts: a missing or empty cell is NaN. */
  function ToNum(t: Option<string>): (x: Num)
    requires Converts(t)
    ensures x.NaN? <==> t.None? || t.value == ""
    ensures !x.NaN? ==> x == Fin(ParseNumber(t.value).value as real)
  {
    if t.None? || t.value == "" then NaN else Fin(ParseNumber(t.value).value as real)
  }

  /** Float division of two converted parts (finite and non-negative, or NaN):
      NaN propagates, 0/0 is NaN and a positive value over 0 is infinite. */
  function Divide(n: Num, d: Num): (q: Num)
    requires !n.PosInf? && !d.PosInf?
    requires n.Fin? ==> n.v >= 0.0
    requires d.Fin? ==> d.v >= 0.0
  {
    if n.NaN? || d.NaN? then NaN
    else if d.v == 0.0 then (if n.v == 0.0 then NaN else PosInf)
    else Fin(n.v / d.v)
  }

  /** The share of one row, once both of its parts convert. */
  function RowShare(r: Record): Num
    requires Converts(NumeratorText(r)) && Converts(DenominatorText(r))
  {
    Divide(ToNum(NumeratorText(r)), ToNum(DenominatorText(r)))
  }

  datatype ShareError =
    | NotNumeric     // `pd.to_numeric` raises on a part that is not a number
    | MissingColumn  // no row contains "/", so the split has no column 1

  datatype Result<+T> = Ok(value: T) | Err(error: ShareError)

  /** Lines 40-41: the whole `share_pct` column, or the exception the script stops with.
      Python evaluates the numerator column first, then looks up column 1,
      then converts it. */
  function ShareColumn(rows: seq<Record>): (res: Result<seq<Num>>)
    ensures res.Ok? <==>
      && (forall i :: 0 <= i < |rows| ==> Converts(NumeratorText(rows[i])) && Converts(DenominatorText(rows[i])))
      && (exists i :: 0 <= i < |rows| && DenominatorText(rows[i]).Some?)
    ensures res == Err(MissingColumn) <==>
      && (forall i :: 0 <= i < |rows| ==> Converts(NumeratorText(rows[i])))
      && (forall i :: 0 <= i < |rows| ==> DenominatorText(rows[i]).None?)
    ensures res.Ok? ==>
      && |res.value| == |rows|
      && forall i :: 0 <= i < |rows| ==> res.value[i] == RowShare(rows[i])
  {
    if exists i :: 0 <= i < |rows| && !Converts(NumeratorText(rows[i])) then Err(NotNumeric)
    else if forall i :: 0 <= i < |rows| ==> DenominatorText(rows[i]).None? then Err(MissingColumn)
    else if exists i :: 0 <= i < |rows| && !Converts(DenominatorText(rows[i])) then Err(NotNumeric)
    else Ok(seq(|rows|, i requires 0 <= i < |rows| => RowShare(rows[i])))
  }

  lemma DigitsHaveNoSeparator(a: string)
    requires IsDigits(a)
    ensures '/' !in a
  {
  }

  /** The two parts of a numeral "a/b" are a and b. */
  lemma FractionParts(r: Record, a: string, b: string)
    requires IsDigits(a) && IsDigits(b) && r.prizeShare == Some(a + "/" + b)
    ensures NumeratorText(r) == Some(a) && DenominatorText(r) == Some(b)
    ensures ParseNumber(a) == Some(DigitsValue(a)) && ParseNumber(b) == Some(DigitsValue(b))
  {
    DigitsHaveNoSeparator(a);
    DigitsHaveNoSeparator(b);
    SplitPair(a, b);
  }

  /** A well-formed "n/d" (two decimal numerals around one "/") converts,
      and its share is exactly n/d; with 0 < n <= d it lies in (0, 1]. */
  lemma FractionShare(r: Record, a: string, b: string)
    requires IsDigits(a) && IsDigits(b) && r.prizeShare == Some(a + "/" + b)
    requires DigitsValue(b) > 0
    ensures Converts(NumeratorText(r)) && Converts(DenominatorText(r))
    ensures RowShare(r) == Fin(DigitsValue(a) as real / DigitsValue(b) as real)
    ensures 0 < DigitsValue(a) <= DigitsValue(b) ==> 0.0 < RowShare(r).v <= 1.0
  {
    FractionParts(r, a, b);
    if 0 < DigitsValue(a) <= DigitsValue(b) {
      UnitRatio(DigitsValue(a) as real, DigitsValue(b) as real);
    }
  }

  lemma UnitRatio(x: real, y: real)
    requires 0.0 < x <= y
    ensures 0.0 < x / y <= 1.0
  {
    assert (x / y) * y == x;
  }

  /** A zero denominator does not fail: float division gives infinity, or NaN for "0/0". */
  lemma ZeroDenominator(r: Record, a: string, b: string)
    requires IsDigits(a) && IsDigits(b) && r.prizeShare == Some(a + "/" + b)
    requires DigitsValue(b) == 0
    ensures Converts(NumeratorText(r)) && Converts(DenominatorText(r))
    ensures RowShare(r) == if DigitsValue(a) == 0 then NaN else PosInf
  {
    FractionParts(r, a, b);
  }

  /** "1/4" gives a share of one quarter. */
  lemma OneQuarter(r: Record)
    requires r.prizeShare == Some("1/4")
    ensures Converts(NumeratorText(r)) && Converts(DenominatorText(r))
    ensures RowShare(r) == Fin(0.25)
  {
    SplitPair("1", "4");
    assert "1" + "/" + "4" == "1/4";
  }

  /** A numeral with nothing after its "/" ("1/") or before it ("/4") does
      not stop the column: the empty side converts to NaN, and so does the
      share. */
  lemma EmptySide(r: Record, a: string)
    requires IsDigits(a)
    requires r.prizeShare == Some(a + "/") || r.prizeShare == Some("/" + a)
    ensures Converts(NumeratorText(r)) && Converts(DenominatorText(r))
    ensures RowShare(r) == NaN
  {
    DigitsHaveNoSeparator(a);
    if r.prizeShare == Some(a + "/") {
      SplitPair(a, "");
      assert a + "/" + "" == a + "/";
    } else {
      SplitPair("", a);
      assert "" + "/" + a == "/" + a;
    }
  }

  /** A "-" instead of "/" leaves one part, "1-4", which is not a number:
      the column cannot be computed, instead of a silently wrong share. */
  lemma WrongSeparator(rows: seq<Record>, i: int)
    requires 0 <= i < |rows| && rows[i].prizeShare == Some("1-4")
    ensures ShareColumn(rows) == Err(NotNumeric)
  {
    SplitNoSeparator("1-4");
    assert !IsDigit("1-4"[1]);
    assert !Converts(NumeratorText(rows[i]));
  }
}
