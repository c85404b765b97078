/** Character classes, Python's ordering of `str` values and `sorted()` of
    a set of strings, and the decimal integer syntax accepted for a port. */
module Strings {
  import opened Wrappers

  /** `[A-Za-z_]`, the first character of a placeholder name. */
  predicate IsIdentStart(c: char) {
    ('A' <= c <= 'Z') || ('a' <= c <= 'z') || c == '_'
  }

  /** `[A-Za-z0-9_]`, a later character of a placeholder name. */
  predicate IsIdentChar(c: char) {
    IsIdentStart(c) || ('0' <= c <= '9')
  }

  /** `[A-Za-z_][A-Za-z0-9_]*` matched as a whole. */
  predicate IsIdentifier(n: string) {
    |n| > 0 && IsIdentStart(n[0]) && forall k :: 1 <= k < |n| ==> IsIdentChar(n[k])
  }

  // ---------------------------------------------------------------------------
  // Python compares `str` values lexicographically by code point.

  predicate Below(a: string, b: string)
    decreases |a|
  {
    if a == [] then b != []
    else if b == [] then false
    else if a[0] != b[0] then a[0] < b[0]
    else Below(a[1..], b[1..])
  }

  lemma {:induction false} BelowIrreflexive(a: string)
    ensures !Below(a, a)
    decreases |a|
  {
    if a != [] {
      BelowIrreflexive(a[1..]);
    }
  }

  lemma {:induction false} BelowAsymmetric(a: string, b: string)
    requires Below(a, b)
    ensures !Below(b, a)
    decreases |a|
  {
    if a != [] && b != [] && a[0] == b[0] {
      BelowAsymmetric(a[1..], b[1..]);
    }
  }

  lemma {:induction false} BelowTransitive(a: string, b: string, c: string)
    requires Below(a, b) && Below(b, c)
    ensures Below(a, c)
    decreases |a|
  {
    if a != [] && a[0] == b[0] && b[0] == c[0] {
      BelowTransitive(a[1..], b[1..], c[1..]);
    }
  }

  lemma {:induction false} BelowTotal(a: string, b: string)
    requires a != b
    ensures Below(a, b) || Below(b, a)
    decreases |a|
  {
    if a != [] && b != [] && a[0] == b[0] {
      assert a == [a[0]] + a[1..] && b == [b[0]] + b[1..];
      BelowTotal(a[1..], b[1..]);
    }
  }

  /** Ascending without repetitions. */
  predicate StrictlySorted(r: seq<string>) {
    forall i, j :: 0 <= i < j < |r| ==> Below(r[i], r[j])
  }

  predicate IsLeast(m: string, s: set<string>) {
    m in s && forall x :: x in s && x != m ==> Below(m, x)
  }

  lemma {:induction false} LeastExists(s: set<string>)
    requires s != {}
    ensures exists m :: IsLeast(m, s)
    decreases |s|
  {
    var y :| y in s;
    if s != {y} {
      LeastExists(s - {y});
      var m :| IsLeast(m, s - {y});
      if Below(y, m) {
        forall x | x in s && x != y
          ensures Below(y, x)
        {
          if x != m {
            BelowTransitive(y, m, x);
          }
        }
        assert IsLeast(y, s);
      } else {
        BelowTotal(y, m);
        assert IsLeast(m, s);
      }
    } else {
      assert IsLeast(y, s);
    }
  }

  lemma LeastUnique(s: set<string>)
    ensures forall a, b :: IsLeast(a, s) && IsLeast(b, s) ==> a == b
  {
    forall a, b | IsLeast(a, s) && IsLeast(b, s)
      ensures a == b
    {
      if a != b {
        BelowAsymmetric(a, b);
      }
    }
  }

  /** Python's `sorted(s)` for a set of strings. */
  function SortedList(s: set<string>): (r: seq<string>)
    ensures StrictlySorted(r)
    ensures forall x :: x in r <==> x in s
    ensures |r| == |s|
    decreases |s|
  {
    if s == {} then []
    else
      LeastExists(s);
      LeastUnique(s);
      var m :| IsLeast(m, s);
      var rest := SortedList(s - {m});
      assert forall j :: 0 <= j < |rest| ==> rest[j] in s - {m};
      [m] + rest
  }

  /** A strictly sorted list repeats no element. */
  lemma StrictlySortedDistinct(r: seq<string>)
    requires StrictlySorted(r)
    ensures forall i, j :: 0 <= i < j < |r| ==> r[i] != r[j]
  {
    forall i, j | 0 <= i < j < |r|
      ensures r[i] != r[j]
    {
      BelowIrreflexive(r[i]);
    }
  }

  /** The first element of a sorted listing of `s` is the least of `s`. */
  lemma SortedHeadIsLeast(r: seq<string>, s: set<string>)
    requires StrictlySorted(r) && r != []
    requires forall x :: x in r <==> x in s
    ensures IsLeast(r[0], s)
  {
    forall x | x in s && x != r[0]
      ensures Below(r[0], x)
    {
      var j :| 0 <= j < |r| && r[j] == x;
    }
  }

  /** The rest of a sorted listing of `s` lists the rest of `s`. */
  lemma SortedTail(r: seq<string>, s: set<string>)
    requires StrictlySorted(r) && r != []
    requires forall x :: x in r <==> x in s
    ensures StrictlySorted(r[1..])
    ensures forall x :: x in r[1..] <==> x in s - {r[0]}
  {
    StrictlySortedDistinct(r);
    forall x
      ensures x in r[1..] <==> x in s - {r[0]}
    {
      if x in r[1..] {
        var j :| 1 <= j < |r| && r[j] == x;
      }
    }
  }

  /** Two strictly sorted lists with the same elements are equal, so
      `SortedList(s)` is the only sorted, repetition-free listing of `s`. */
  lemma {:induction false} SortedListUnique(r: seq<string>, s: set<string>)
    requires StrictlySorted(r)
    requires forall x :: x in r <==> x in s
    ensures r == SortedList(s)
    decreases |r|
  {
    if r == [] {
      assert s == {};
    } else {
      assert r[0] in s;
      SortedHeadIsLeast(r, s);
      SortedListCons(s, r[0]);
      SortedTail(r, s);
      SortedListUnique(r[1..], s - {r[0]});
    }
  }

  /** `SortedList(s)` starts with the least element of `s`. */
  lemma SortedListCons(s: set<string>, m: string)
    requires IsLeast(m, s)
    ensures SortedList(s) == [m] + SortedList(s - {m})
  {
    LeastUnique(s);
  }

  // ---------------------------------------------------------------------------
  // Decimal integers: an optional sign followed by one or more ASCII digits.

  predicate IsDigit(c: char) {
    '0' <= c <= '9'
  }

  predicate AllDigits(s: string) {
    forall k :: 0 <= k < |s| ==> IsDigit(s[k])
  }

  function DigitValue(c: char): nat
    requires IsDigit(c)
  {
    (c as int) - ('0' as int)
  }

  function DigitChar(d: nat): (c: char)
    requires d < 10
    ensures IsDigit(c) && DigitValue(c) == d
  {
    (('0' as int) + d) as char
  }

  /** The value of a digit string read most significant digit first. */
  function DigitsValue(s: string): nat
    requires AllDigits(s)
    decreases |s|
  {
    if s == [] then 0 else DigitsValue(s[..|s| - 1]) * 10 + DigitValue(s[|s| - 1])
  }

  /** The approximation of Python's `int(text)` used for the port. */
  function ParseInt(s: string): (r: Option<int>)
    ensures r.Some? <==>
      (|s| > 0 && AllDigits(s)) || (|s| > 1 && (s[0] == '-' || s[0] == '+') && AllDigits(s[1..]))
    ensures r.Some? && s[0] == '-' ==> r.value <= 0
    ensures r.Some? && s[0] != '-' ==> r.value >= 0
  {
    if |s| > 0 && (s[0] == '-' || s[0] == '+') then
      if |s| > 1 && AllDigits(s[1..]) then
        var magnitude: int := DigitsValue(s[1..]);
        Some(if s[0] == '-' then -magnitude else magnitude)
      else None
    else if |s| > 0 && AllDigits(s) then Some(DigitsValue(s))
    else None
  }

  function NatToDecimal(n: nat): (r: string)
    ensures |r| > 0 && AllDigits(r)
    decreases n
  {
    if n < 10 then [DigitChar(n)] else NatToDecimal(n / 10) + [DigitChar(n % 10)]
  }

  /** Python's `str(n)` for an integer. */
  function IntToDecimal(n: int): string {
    if n < 0 then "-" + NatToDecimal(-n) else NatToDecimal(n)
  }

  lemma {:induction false} NatToDecimalValue(n: nat)
    ensures DigitsValue(NatToDecimal(n)) == n
    decreases n
  {
    if n >= 10 {
      var s := NatToDecimal(n);
      assert s[..|s| - 1] == NatToDecimal(n / 10);
      NatToDecimalValue(n / 10);
    }
  }

  /** Every integer written in decimal parses back to itself. */
  lemma ParseIntRoundTrip(n: int)
    ensures ParseInt(IntToDecimal(n)) == Some(n)
  {
    if n < 0 {
      var s := IntToDecimal(n);
      assert s[1..] == NatToDecimal(-n);
      NatToDecimalValue(-n);
    } else {
      NatToDecimalValue(n);
    }
  }
  /** A leading zero does not change the value of a digit string. */
  lemma {:induction false} DigitsLeadingZero(t: string)
    requires AllDigits(t)
    ensures AllDigits("0" + t) && DigitsValue("0" + t) == DigitsValue(t)
    decreases |t|
  {
    var z := "0" + t;
    assert AllDigits(z) by {
      forall k | 0 <= k < |z| ensures IsDigit(z[k]) {
        if k > 0 { assert z[k] == t[k - 1]; }
      }
    }
    if t != [] {
      assert z[..|z| - 1] == "0" + t[..|t| - 1];
      assert z[|z| - 1] == t[|t| - 1];
      DigitsLeadingZero(t[..|t| - 1]);
    }
  }

  /** `int()` ignores leading zeros: "03306" reads as 3306, "-007" as -7. */
  lemma ParseIntLeadingZero(sign: string, t: string)
    requires sign == "" || sign == "+" || sign == "-"
    requires |t| > 0 && AllDigits(t)
    ensures ParseInt(sign + "0" + t) == ParseInt(sign + t)
  {
    DigitsLeadingZero(t);
    if sign == "" {
      assert sign + "0" + t == "0" + t && sign + t == t;
    } else {
      assert (sign + "0" + t)[0] == (sign + t)[0] == sign[0];
      assert (sign + "0" + t)[1..] == "0" + t;
      assert (sign + t)[1..] == t;
    }
  }

  /** A `+` sign does not change the value: "+3306" reads as 3306. */
  lemma ParseIntPlus(t: string)
    requires |t| > 0 && AllDigits(t)
    ensures ParseInt("+" + t) == ParseInt(t) == Some(DigitsValue(t))
  {
    assert ("+" + t)[1..] == t;
  }

  /** A `-` sign negates the value of the digits. */
  lemma ParseIntMinus(t: string)
    requires |t| > 0 && AllDigits(t)
    ensures ParseInt("-" + t) == Some(-(DigitsValue(t) as int))
  {
    assert ("-" + t)[1..] == t;
  }
}
