/** The placeholder analyser of sigur/services/mysql.py (lines 84-116):
    colon-style `:name` markers are rewritten to PyMySQL's `%(name)s`, the
    distinct names of `%(name)s` markers are collected, bare `%s` markers
    are counted, and SQL that uses both styles is rejected.

    The three regular expressions are replaced by explicit scans. Each scan
    walks the string by index, as Python's `re` does, so that a look-behind
    inspects the character before the current position in the string being
    searched. */
module Placeholders {
  import opened Wrappers
  import opened Strings
  import opened ServiceErrors

  /** The end of the longest run of identifier characters that starts at `j`
      (the greedy `[A-Za-z0-9_]*`). */
  function IdentEnd(s: string, j: nat): (k: nat)
    requires j <= |s|
    ensures j <= k <= |s|
    ensures forall m :: j <= m < k ==> IsIdentChar(s[m])
    ensures k == |s| || !IsIdentChar(s[k])
    decreases |s| - j
  {
    if j < |s| && IsIdentChar(s[j]) then IdentEnd(s, j + 1) else j
  }

  /** An identifier written at `j` and not followed by another identifier
      character is exactly the run that `IdentEnd` finds. */
  lemma IdentEndAt(s: string, j: nat, n: string)
    requires j + |n| <= |s| && s[j..j + |n|] == n
    requires forall k :: 0 <= k < |n| ==> IsIdentChar(n[k])
    requires j + |n| == |s| || !IsIdentChar(s[j + |n|])
    ensures IdentEnd(s, j) == j + |n|
  {
  }

  // ---------------------------------------------------------------------------
  // The colon rewrite (line 100): a substitution of every colon marker.

  /** A colon marker starts at `i`: a `:` not preceded by `:` and followed by
      an identifier start. */
  predicate ColonAt(s: string, i: nat) {
    i + 1 < |s| && s[i] == ':' && (i == 0 || s[i - 1] != ':') && IsIdentStart(s[i + 1])
  }

  /** The rewrite of `s[i..]`, every colon marker becoming `%(name)s`; it
      never shortens the text. */
  function NormaliseFrom(s: string, i: nat): (r: string)
    requires i <= |s|
    ensures |r| >= |s| - i
    decreases |s| - i
  {
    if i == |s| then []
    else if ColonAt(s, i) then
      var k := IdentEnd(s, i + 1);
      "%(" + s[i + 1..k] + ")s" + NormaliseFrom(s, k)
    else [s[i]] + NormaliseFrom(s, i + 1)
  }

  /** Positions `i..j` hold no colon marker, so the rewrite copies them. */
  lemma {:induction false} NormaliseCopies(s: string, i: nat, j: nat)
    requires i <= j <= |s|
    requires forall k :: i <= k < j ==> !ColonAt(s, k)
    ensures NormaliseFrom(s, i) == s[i..j] + NormaliseFrom(s, j)
    decreases j - i
  {
    if i < j {
      assert !ColonAt(s, i);
      NormaliseCopies(s, i + 1, j);
      SliceCons(s, i, j, NormaliseFrom(s, j));
    }
  }

  lemma SliceCons(s: string, i: nat, j: nat, rest: string)
    requires i < j <= |s|
    ensures [s[i]] + (s[i + 1..j] + rest) == s[i..j] + rest
  {
    assert s[i..j] == [s[i]] + s[i + 1..j];
  }

  /** The colon rewrite of a whole SQL text; SQL without a `:` is left as
      it is. */
  function Normalise(raw: string): (r: string)
    ensures |r| >= |raw|
    ensures ':' !in raw ==> r == raw
  {
    if ':' in raw then NormaliseFrom(raw, 0)
    else
      NormaliseCopies(raw, 0, |raw|);
      assert raw[0..|raw|] == raw;
      NormaliseFrom(raw, 0)
  }

  // ---------------------------------------------------------------------------
  // The named scan (lines 89-91): the names of all non-overlapping matches.

  /** A named marker `%(name)s` starts at `i`. */
  predicate NamedAt(s: string, i: nat) {
    i + 2 < |s| && s[i] == '%' && s[i + 1] == '(' && IsIdentStart(s[i + 2])
    && IdentEnd(s, i + 2) + 1 < |s| && s[IdentEnd(s, i + 2)] == ')' && s[IdentEnd(s, i + 2) + 1] == 's'
  }

  /** The names of the named markers found scanning `s[i..]` left to right. */
  function NamedFrom(s: string, i: nat): (r: set<string>)
    requires i <= |s|
    ensures forall n :: n in r ==> IsIdentifier(n)
    decreases |s| - i
  {
    if i == |s| then {}
    else if NamedAt(s, i) then
      var k := IdentEnd(s, i + 2);
      {s[i + 2..k]} + NamedFrom(s, k + 2)
    else NamedFrom(s, i + 1)
  }

  /** `extract_named_params`: the identifiers that occur as `%(name)s`
      anywhere in the text. */
  function NamedParams(sql: string): (r: set<string>)
    ensures forall n :: n in r <==> IsIdentifier(n) && MarkerFrom(sql, 0, n)
  {
    NamedFromIff(sql, 0);
    NamedFrom(sql, 0)
  }

  /** The text `%(n)s` occurs at position `i`. */
  predicate MarkerAt(s: string, i: nat, n: string) {
    i + |n| + 4 <= |s| && s[i..i + |n| + 4] == "%(" + n + ")s"
  }

  /** A marker of an identifier is a match of the named pattern. */
  lemma MarkerIsMatch(s: string, i: nat, n: string)
    requires MarkerAt(s, i, n) && IsIdentifier(n)
    ensures NamedAt(s, i) && IdentEnd(s, i + 2) == i + 2 + |n| && s[i + 2..i + 2 + |n|] == n
  {
    var e := i + |n| + 4;
    var w := s[i..e];
    assert w == "%(" + n + ")s";
    assert w[0] == '%' && w[1] == '(' && w[|n| + 2] == ')' && w[|n| + 3] == 's';
    forall k | 0 <= k < |n|
      ensures s[i + 2 + k] == n[k]
    {
      assert s[i + 2 + k] == w[2 + k];
    }
    assert s[i + 2..i + 2 + |n|] == n;
    assert s[i] == w[0] && s[i + 1] == w[1];
    assert s[i + 2 + |n|] == w[|n| + 2] && s[i + 3 + |n|] == w[|n| + 3];
    IdentEndAt(s, i + 2, n);
  }

  /** A marker begins with `%`. */
  lemma MarkerStartsWithPercent(s: string, j: nat, n: string)
    requires MarkerAt(s, j, n)
    ensures s[j] == '%'
  {
    assert s[j..j + |n| + 4][0] == '%';
  }

  /** Inside a match of the named pattern there is no further `%`. */
  lemma NoPercentInsideMatch(s: string, i: nat)
    requires NamedAt(s, i)
    ensures forall j :: i < j < IdentEnd(s, i + 2) + 2 ==> s[j] != '%'
  {
  }

  /** Some marker `%(n)s` starts at or after `i`. */
  predicate MarkerFrom(s: string, i: nat, n: string) {
    exists j :: i <= j <= |s| && MarkerAt(s, j, n)
  }

  /** Where no match starts, no marker of an identifier starts either. */
  lemma MarkerFromSkip(s: string, i: nat, n: string)
    requires i < |s| && !NamedAt(s, i) && IsIdentifier(n)
    ensures MarkerFrom(s, i, n) <==> MarkerFrom(s, i + 1, n)
  {
    if MarkerFrom(s, i, n) {
      var j :| i <= j <= |s| && MarkerAt(s, j, n);
      if j == i {
        MarkerIsMatch(s, i, n);
      }
    }
  }

  /** A match covers one marker, and no other marker starts inside it. */
  lemma MarkerFromMatch(s: string, i: nat, n: string)
    requires NamedAt(s, i) && IsIdentifier(n)
    ensures MarkerFrom(s, i, n) <==>
      n == s[i + 2..IdentEnd(s, i + 2)] || MarkerFrom(s, IdentEnd(s, i + 2) + 2, n)
  {
    var k := IdentEnd(s, i + 2);
    var m := s[i + 2..k];
    if n == m {
      assert s[i..i + |m| + 4] == "%(" + m + ")s";
      assert MarkerAt(s, i, m);
    }
    if MarkerFrom(s, i, n) {
      var j :| i <= j <= |s| && MarkerAt(s, j, n);
      MarkerStartsWithPercent(s, j, n);
      if j == i {
        MarkerIsMatch(s, i, n);
      } else {
        NoPercentInsideMatch(s, i);
        assert k + 2 <= j;
      }
    }
  }

  /** The named set is exactly the set of identifiers that occur as
      `%(name)s`: non-overlapping left-to-right matching loses none. */
  lemma {:induction false} NamedFromIff(s: string, i: nat)
    requires i <= |s|
    ensures forall n :: n in NamedFrom(s, i) <==> IsIdentifier(n) && MarkerFrom(s, i, n)
    decreases |s| - i
  {
    if i == |s| {
    } else if NamedAt(s, i) {
      var k := IdentEnd(s, i + 2);
      assert NamedFrom(s, i) == {s[i + 2..k]} + NamedFrom(s, k + 2);
      NamedFromIff(s, k + 2);
      forall n | IsIdentifier(n)
        ensures MarkerFrom(s, i, n) <==> n == s[i + 2..k] || MarkerFrom(s, k + 2, n)
      {
        MarkerFromMatch(s, i, n);
      }
    } else {
      assert NamedFrom(s, i) == NamedFrom(s, i + 1);
      NamedFromIff(s, i + 1);
      forall n | IsIdentifier(n)
        ensures MarkerFrom(s, i, n) <==> MarkerFrom(s, i + 1, n)
      {
        MarkerFromSkip(s, i, n);
      }
    }
  }

  // ---------------------------------------------------------------------------
  // The positional count (line 102): the number of bare markers.

  /** A bare `%s` marker starts at `i`: not preceded by `%`, so the escaped
      `%%s` is not one. */
  predicate PositionalAt(s: string, i: nat) {
    i + 1 < |s| && s[i] == '%' && s[i + 1] == 's' && (i == 0 || s[i - 1] != '%')
  }

  /** The bare markers counted scanning `s[i..]`; each takes two
      characters. */
  function PositionalFrom(s: string, i: nat): (r: nat)
    requires i <= |s|
    ensures 2 * r <= |s| - i
    decreases |s| - i
  {
    if i == |s| then 0
    else if PositionalAt(s, i) then 1 + PositionalFrom(s, i + 2)
    else PositionalFrom(s, i + 1)
  }

  /** The number of bare `%s` markers in the text. */
  function PositionalCount(sql: string): (r: nat)
    ensures r == |PositionalPositions(sql, 0)|
    ensures 2 * r <= |sql|
  {
    PositionalFromCounts(sql, 0);
    PositionalFrom(sql, 0)
  }

  function PositionalPositions(s: string, i: nat): set<nat> {
    set j: nat | i <= j < |s| && PositionalAt(s, j)
  }

  /** The count is the number of positions holding a bare `%s`. */
  lemma {:induction false} PositionalFromCounts(s: string, i: nat)
    requires i <= |s|
    ensures PositionalFrom(s, i) == |PositionalPositions(s, i)|
    decreases |s| - i
  {
    if i == |s| {
      assert PositionalPositions(s, i) == {};
    } else if PositionalAt(s, i) {
      PositionalFromCounts(s, i + 2);
      assert !PositionalAt(s, i + 1);
      assert PositionalPositions(s, i) == {i} + PositionalPositions(s, i + 2);
      assert i !in PositionalPositions(s, i + 2);
    } else {
      PositionalFromCounts(s, i + 1);
      assert PositionalPositions(s, i) == PositionalPositions(s, i + 1);
    }
  }

  // ---------------------------------------------------------------------------
  // analyse_placeholders and get_required_named_params

  datatype Analysis = Analysis(sql: string, named: set<string>, positional: nat)

  function Analyse(raw: string): (r: Result<Analysis, ServiceError>)
    ensures r.Ok? ==> r.value.named == {} || r.value.positional == 0
    ensures r.Ok? ==> forall n :: n in r.value.named ==> IsIdentifier(n)
    ensures r.Err? ==> r.error == ParameterError(MixedStyles, [])
  {
    var sql := Normalise(raw);
    var named := NamedParams(sql);
    var count := PositionalCount(sql);
    if named != {} && count > 0 then Err(ParameterError(MixedStyles, []))
    else Ok(Analysis(sql, named, count))
  }

  /** Analysis fails exactly when the rewritten SQL holds both a named marker
      and a bare `%s`, wherever each stands. */
  lemma MixedStylesRejected(raw: string)
    ensures var sql := Normalise(raw);
      Analyse(raw).Err? <==>
        (exists j, n :: 0 <= j <= |sql| && IsIdentifier(n) && MarkerAt(sql, j, n))
        && (exists j: nat :: j < |sql| && PositionalAt(sql, j))
  {
    var sql := Normalise(raw);
    PositionalFromCounts(sql, 0);
    if NamedParams(sql) != {} {
      var n :| n in NamedParams(sql);
    }
    if exists j, n :: 0 <= j <= |sql| && IsIdentifier(n) && MarkerAt(sql, j, n) {
      var j, n :| 0 <= j <= |sql| && IsIdentifier(n) && MarkerAt(sql, j, n);
      assert MarkerFrom(sql, 0, n);
    }
    if exists j: nat :: j < |sql| && PositionalAt(sql, j) {
      var j: nat :| j < |sql| && PositionalAt(sql, j);
      assert j in PositionalPositions(sql, 0);
    }
  }

  /** `get_required_named_params`: the named set, sorted. */
  function RequiredNamedParams(raw: string): (r: Result<seq<string>, ServiceError>)
    ensures r.Ok? <==> Analyse(raw).Ok?
    ensures r.Err? ==> r.error == ParameterError(MixedStyles, [])
    ensures r.Ok? ==> StrictlySorted(r.value)
    ensures r.Ok? ==> forall n :: n in r.value <==> n in Analyse(raw).value.named
  {
    match Analyse(raw)
    case Ok(a) => Ok(SortedList(a.named))
    case Err(e) => Err(e)
  }
}
