/** A reference description of SQL text in terms of its placeholder tokens,
    against which the scans of the analyser are proved: for every template
    built from markers, lone `%` and `:` signs and other characters,
    analysing its text recovers exactly the markers it was built from. */
module PlaceholderTemplates {
  import opened Wrappers
  import opened Strings
  import opened ServiceErrors
  import opened Placeholders

  datatype Piece =
    | Literal(c: char)          // one character of SQL text, neither `%` nor `:`
    | Named(name: string)       // `%(name)s`
    | Colon(name: string)       // `:name`
    | Positional                // `%s`
    | EscapedPercent            // `%%`, a literal percent sign
    | DoubleColon(name: string) // `::name`, which is not a placeholder
    | Percent                   // a `%` on its own, as in `LIKE 'a%'`
    | LoneColon                 // a `:` not starting a name, as in `'10:30'`

  function PieceText(p: Piece): (t: string)
    ensures |t| > 0
  {
    match p
    case Literal(c) => [c]
    case Named(n) => "%(" + n + ")s"
    case Colon(n) => ":" + n
    case Positional => "%s"
    case EscapedPercent => "%%"
    case DoubleColon(n) => "::" + n
    case Percent => "%"
    case LoneColon => ":"
  }

  function Render(ps: seq<Piece>): string
    decreases |ps|
  {
    if ps == [] then "" else PieceText(ps[0]) + Render(ps[1..])
  }

  /** A piece as the colon rewrite leaves it. */
  function CanonicalPiece(p: Piece): Piece {
    if p.Colon? then Named(p.name) else p
  }

  function NamesOf(ps: seq<Piece>): set<string>
    decreases |ps|
  {
    if ps == [] then {}
    else (if ps[0].Named? || ps[0].Colon? then {ps[0].name} else {}) + NamesOf(ps[1..])
  }

  function PositionalsOf(ps: seq<Piece>): nat
    decreases |ps|
  {
    if ps == [] then 0 else (if ps[0].Positional? then 1 else 0) + PositionalsOf(ps[1..])
  }

  predicate PieceOk(p: Piece) {
    match p
    case Literal(c) => c != '%' && c != ':'
    case Named(n) => IsIdentifier(n)
    case Colon(n) => IsIdentifier(n)
    case DoubleColon(n) => IsIdentifier(n)
    case _ => true
  }

  /** Neighbours that do not run into each other: a colon name is not
      continued by a following identifier character; `%%` is followed
      neither by `%s` (the scan would not count `%%%s`) nor by `(`; a lone
      `%` is followed by none of `%s`, `s` and `(`; and a lone `:` is
      followed neither by an identifier start nor by a colon marker. */
  predicate Adjacent(p: Piece, q: Piece) {
    (p.Colon? && q.Literal? ==> !IsIdentChar(q.c))
    && (p.EscapedPercent? ==> !q.Positional? && q != Literal('('))
    && (p.Percent? ==> !q.Positional? && q != Literal('(') && q != Literal('s'))
    && (p.LoneColon? ==> !q.Colon? && (q.Literal? ==> !IsIdentStart(q.c)))
  }

  predicate WellFormed(ps: seq<Piece>)
    decreases |ps|
  {
    ps == [] || (PieceOk(ps[0]) && (|ps| > 1 ==> Adjacent(ps[0], ps[1])) && WellFormed(ps[1..]))
  }

  predicate NoColon(ps: seq<Piece>) {
    forall i :: 0 <= i < |ps| ==> !ps[i].Colon?
  }

  /** The template with every colon marker written as a named marker. */
  function Canonical(ps: seq<Piece>): (r: seq<Piece>)
    ensures |r| == |ps| && forall i :: 0 <= i < |ps| ==> r[i] == CanonicalPiece(ps[i])
    ensures NoColon(r)
    ensures NamesOf(r) == NamesOf(ps) && PositionalsOf(r) == PositionalsOf(ps)
    ensures WellFormed(ps) ==> WellFormed(r)
    decreases |ps|
  {
    if ps == [] then []
    else
      var r := [CanonicalPiece(ps[0])] + Canonical(ps[1..]);
      assert r[1..] == Canonical(ps[1..]);
      r
  }

  // ---------------------------------------------------------------------------
  // Facts about the first and last character of a piece.

  lemma LeadChar(p: Piece)
    requires PieceOk(p)
    ensures p.Literal? || PieceText(p)[0] == '%' || PieceText(p)[0] == ':'
    ensures p.Literal? ==> PieceText(p)[0] == p.c
  {
  }

  lemma LastChar(p: Piece)
    requires PieceOk(p)
    ensures var t := PieceText(p);
      (t[|t| - 1] == ':' <==> p.LoneColon?) && (t[|t| - 1] == '%' <==> p.EscapedPercent? || p.Percent?)
  {
    var t := PieceText(p);
    if p.Colon? || p.DoubleColon? {
      assert t[|t| - 1] == p.name[|p.name| - 1];
    }
  }

  /** How the rest of a well-formed template begins after piece `p`. */
  lemma NextChar(p: Piece, rest: seq<Piece>)
    requires WellFormed([p] + rest)
    ensures rest != [] ==> |Render(rest)| > 0 && Render(rest)[0] == PieceText(rest[0])[0]
    ensures p.Colon? && rest != [] ==> !IsIdentChar(Render(rest)[0])
    ensures p.EscapedPercent? && rest != [] ==> Render(rest)[0] != '('
    ensures p.Percent? && rest != [] ==> Render(rest)[0] != '(' && Render(rest)[0] != 's'
    ensures p.LoneColon? && rest != [] ==> !IsIdentStart(Render(rest)[0])
  {
    if rest != [] {
      assert ([p] + rest)[1] == rest[0];
      assert ([p] + rest)[1..] == rest;
      LeadChar(rest[0]);
    }
  }

  lemma RenderCons(ps: seq<Piece>)
    requires ps != []
    ensures Render(ps) == PieceText(ps[0]) + Render(ps[1..])
  {
  }

  lemma CanonicalRenderCons(ps: seq<Piece>)
    requires ps != []
    ensures Render(Canonical(ps)) == PieceText(CanonicalPiece(ps[0])) + Render(Canonical(ps[1..]))
  {
    var c := Canonical(ps);
    assert c == [CanonicalPiece(ps[0])] + Canonical(ps[1..]);
    assert c[1..] == Canonical(ps[1..]);
  }

  lemma WellFormedTail(ps: seq<Piece>)
    requires WellFormed(ps) && ps != []
    ensures PieceOk(ps[0]) && WellFormed(ps[1..]) && [ps[0]] + ps[1..] == ps
  {
  }

  /** Splitting a suffix of `s` that is the concatenation `t + u`. */
  lemma SplitSuffix(s: string, i: nat, t: string, u: string)
    requires i <= |s| && s[i..] == t + u
    ensures i + |t| <= |s| && s[i..i + |t|] == t && s[i + |t|..] == u
    ensures forall k :: 0 <= k < |t| ==> s[i + k] == t[k]
  {
    assert s[i..][..|t|] == t;
    assert forall k :: 0 <= k < |t| ==> s[i + k] == s[i..][k];
  }

  /** The facts about the piece at `i` and its surroundings that the steps
      of the three scans use. */
  lemma PieceAt(s: string, i: nat, ps: seq<Piece>)
    requires WellFormed(ps) && ps != []
    requires i <= |s| && s[i..] == Render(ps)
    ensures var t := PieceText(ps[0]);
      i + |t| <= |s| && s[i..i + |t|] == t && s[i + |t|..] == Render(ps[1..])
      && (forall k :: 0 <= k < |t| ==> s[i + k] == t[k])
      && (s[i + |t| - 1] == ':' <==> ps[0].LoneColon?)
      && (s[i + |t| - 1] == '%' <==> ps[0].EscapedPercent? || ps[0].Percent?)
      && (ps[0].Colon? && i + |t| < |s| ==> !IsIdentChar(s[i + |t|]))
      && (ps[0].EscapedPercent? && i + |t| < |s| ==> s[i + |t|] != '(')
      && (ps[0].Percent? && i + |t| < |s| ==> s[i + |t|] != '(' && s[i + |t|] != 's')
      && (ps[0].LoneColon? && i + |t| < |s| ==> !IsIdentStart(s[i + |t|]))
      && WellFormed(ps[1..]) && PieceOk(ps[0])
      && (|ps| > 1 ==> Adjacent(ps[0], ps[1]))
  {
    var p, rest := ps[0], ps[1..];
    var t := PieceText(p);
    RenderCons(ps);
    SplitSuffix(s, i, t, Render(rest));
    LastChar(p);
    NextChar(p, rest);
    WellFormedTail(ps);
    assert [p] + rest == ps;
    if rest != [] {
      assert s[i + |t|] == s[i + |t|..][0];
    }
  }

  // ---------------------------------------------------------------------------
  // The colon rewrite of a template.

  /** A colon marker becomes a named marker. */
  lemma NormaliseColonAt(s: string, i: nat, n: string)
    requires IsIdentifier(n) && i + 1 + |n| <= |s|
    requires s[i] == ':' && (i == 0 || s[i - 1] != ':')
    requires s[i + 1..i + 1 + |n|] == n
    requires i + 1 + |n| == |s| || !IsIdentChar(s[i + 1 + |n|])
    ensures NormaliseFrom(s, i) == "%(" + n + ")s" + NormaliseFrom(s, i + 1 + |n|)
  {
    assert s[i + 1] == n[0];
    IdentEndAt(s, i + 1, n);
  }

  /** No colon marker starts inside a piece other than a colon marker. */
  lemma NoColonInside(s: string, i: nat, p: Piece)
    requires PieceOk(p) && !p.Colon?
    requires i + |PieceText(p)| <= |s|
    requires forall k :: 0 <= k < |PieceText(p)| ==> s[i + k] == PieceText(p)[k]
    requires p.LoneColon? && i + 1 < |s| ==> !IsIdentStart(s[i + 1])
    ensures forall k :: i <= k < i + |PieceText(p)| ==> !ColonAt(s, k)
  {
    var t := PieceText(p);
    if p.DoubleColon? {
      assert s[i] == t[0] == ':' && s[i + 1] == t[1] == ':';
      forall k | i + 2 <= k < i + |t|
        ensures s[k] != ':'
      {
        assert s[k] == t[k - i] == p.name[k - i - 2];
      }
    } else if !p.LoneColon? {
      forall k | i <= k < i + |t|
        ensures s[k] != ':'
      {
        assert s[k] == t[k - i];
        if p.Named? && 2 <= k - i < 2 + |p.name| {
          assert t[k - i] == p.name[k - i - 2];
        }
      }
    }
  }

  /** Every other piece is copied. */
  lemma NormaliseCopyAt(s: string, i: nat, p: Piece)
    requires PieceOk(p) && !p.Colon?
    requires i + |PieceText(p)| <= |s|
    requires forall k :: 0 <= k < |PieceText(p)| ==> s[i + k] == PieceText(p)[k]
    requires p.LoneColon? && i + 1 < |s| ==> !IsIdentStart(s[i + 1])
    ensures NormaliseFrom(s, i) == PieceText(p) + NormaliseFrom(s, i + |PieceText(p)|)
  {
    var t := PieceText(p);
    NoColonInside(s, i, p);
    NormaliseCopies(s, i, i + |t|);
    assert s[i..i + |t|] == t;
  }

  /** The rewrite of one piece. */
  lemma NormalisePieceAt(s: string, i: nat, p: Piece)
    requires PieceOk(p)
    requires i + |PieceText(p)| <= |s|
    requires forall k :: 0 <= k < |PieceText(p)| ==> s[i + k] == PieceText(p)[k]
    requires p.Colon? && i > 0 ==> s[i - 1] != ':'
    requires p.Colon? && i + |PieceText(p)| < |s| ==> !IsIdentChar(s[i + |PieceText(p)|])
    requires p.LoneColon? && i + 1 < |s| ==> !IsIdentStart(s[i + 1])
    ensures NormaliseFrom(s, i) == PieceText(CanonicalPiece(p)) + NormaliseFrom(s, i + |PieceText(p)|)
  {
    if p.Colon? {
      NormaliseColonPiece(s, i, p);
    } else {
      NormaliseCopyAt(s, i, p);
    }
  }

  /** The rewrite of a colon marker piece. */
  lemma NormaliseColonPiece(s: string, i: nat, p: Piece)
    requires p.Colon? && IsIdentifier(p.name)
    requires i + |PieceText(p)| <= |s|
    requires forall k :: 0 <= k < |PieceText(p)| ==> s[i + k] == PieceText(p)[k]
    requires i > 0 ==> s[i - 1] != ':'
    requires i + |PieceText(p)| < |s| ==> !IsIdentChar(s[i + |PieceText(p)|])
    ensures NormaliseFrom(s, i) == PieceText(Named(p.name)) + NormaliseFrom(s, i + |PieceText(p)|)
  {
    var t := PieceText(p);
    assert s[i] == t[0];
    assert s[i + 1..i + 1 + |p.name|] == p.name by {
      forall k | 0 <= k < |p.name|
        ensures s[i + 1 + k] == p.name[k]
      {
        assert s[i + 1 + k] == t[1 + k];
      }
    }
    NormaliseColonAt(s, i, p.name);
  }

  /** The rewrite of the first piece of a template. */
  lemma NormaliseHead(s: string, i: nat, ps: seq<Piece>)
    requires WellFormed(ps) && ps != []
    requires i <= |s| && s[i..] == Render(ps)
    requires ps[0].Colon? && i > 0 ==> s[i - 1] != ':'
    ensures var j := i + |PieceText(ps[0])|;
      && j <= |s| && s[j..] == Render(ps[1..]) && WellFormed(ps[1..])
      && NormaliseFrom(s, i) == PieceText(CanonicalPiece(ps[0])) + NormaliseFrom(s, j)
  {
    PieceAt(s, i, ps);
    NormalisePieceAt(s, i, ps[0]);
  }

  /** The character before the rest of a template is a colon only after a
      lone `:`, which no colon marker follows. */
  lemma TailGuard(s: string, i: nat, ps: seq<Piece>)
    requires WellFormed(ps) && ps != []
    requires i <= |s| && s[i..] == Render(ps)
    ensures var j := i + |PieceText(ps[0])|;
      ps[1..] != [] && ps[1..][0].Colon? ==> s[j - 1] != ':'
  {
    PieceAt(s, i, ps);
    if |ps| > 1 {
      assert ps[1..][0] == ps[1];
    }
  }

  lemma {:induction false} NormaliseRender(s: string, i: nat, ps: seq<Piece>)
    requires WellFormed(ps)
    requires i <= |s| && s[i..] == Render(ps)
    requires ps != [] && ps[0].Colon? && i > 0 ==> s[i - 1] != ':'
    ensures NormaliseFrom(s, i) == Render(Canonical(ps))
    decreases |ps|
  {
    if ps == [] {
      assert i == |s|;
    } else {
      var j := i + |PieceText(ps[0])|;
      NormaliseHead(s, i, ps);
      TailGuard(s, i, ps);
      NormaliseRender(s, j, ps[1..]);
      var whole, rest := NormaliseFrom(s, i), NormaliseFrom(s, j);
      NormaliseJoin(whole, rest, ps);
    }
  }

  lemma NormaliseJoin(whole: string, rest: string, ps: seq<Piece>)
    requires ps != []
    requires whole == PieceText(CanonicalPiece(ps[0])) + rest
    requires rest == Render(Canonical(ps[1..]))
    ensures whole == Render(Canonical(ps))
  {
    CanonicalRenderCons(ps);
  }

  // ---------------------------------------------------------------------------
  // The named scan of a template without colon markers.

  lemma {:induction false} NamedSkips(s: string, i: nat, j: nat)
    requires i <= j <= |s|
    requires forall k :: i <= k < j ==> !NamedAt(s, k)
    ensures NamedFrom(s, i) == NamedFrom(s, j)
    decreases j - i
  {
    if i < j {
      NamedSkips(s, i + 1, j);
    }
  }

  function PieceNames(p: Piece): set<string> {
    if p.Named? || p.Colon? then {p.name} else {}
  }

  lemma NamedMarkerAt(s: string, i: nat, n: string)
    requires MarkerAt(s, i, n) && IsIdentifier(n)
    ensures NamedFrom(s, i) == {n} + NamedFrom(s, i + |n| + 4)
  {
    MarkerIsMatch(s, i, n);
  }

  lemma NamedOtherAt(s: string, i: nat, p: Piece)
    requires PieceOk(p) && !p.Named? && !p.Colon?
    requires i + |PieceText(p)| <= |s|
    requires forall k :: 0 <= k < |PieceText(p)| ==> s[i + k] == PieceText(p)[k]
    requires p.EscapedPercent? && i + 2 < |s| ==> s[i + 2] != '('
    requires p.Percent? && i + 1 < |s| ==> s[i + 1] != '('
    ensures NamedFrom(s, i) == NamedFrom(s, i + |PieceText(p)|)
  {
    var t := PieceText(p);
    forall k | i <= k < i + |t|
      ensures !NamedAt(s, k)
    {
      assert s[k] == t[k - i];
      if k + 1 < i + |t| {
        assert s[k + 1] == t[k + 1 - i];
      }
      if p.DoubleColon? && k >= i + 2 {
        assert t[k - i] == p.name[k - i - 2];
      }
    }
    NamedSkips(s, i, i + |t|);
  }

  /** The named scan over one piece that is not a colon marker. */
  lemma NamedPieceAt(s: string, i: nat, p: Piece)
    requires PieceOk(p) && !p.Colon?
    requires i + |PieceText(p)| <= |s|
    requires forall k :: 0 <= k < |PieceText(p)| ==> s[i + k] == PieceText(p)[k]
    requires p.EscapedPercent? && i + 2 < |s| ==> s[i + 2] != '('
    requires p.Percent? && i + 1 < |s| ==> s[i + 1] != '('
    ensures NamedFrom(s, i) == PieceNames(p) + NamedFrom(s, i + |PieceText(p)|)
  {
    if p.Named? {
      var t := PieceText(p);
      assert s[i..i + |p.name| + 4] == t;
      NamedMarkerAt(s, i, p.name);
    } else {
      NamedOtherAt(s, i, p);
    }
  }

  lemma NoColonTail(ps: seq<Piece>)
    requires NoColon(ps) && ps != []
    ensures NoColon(ps[1..]) && !ps[0].Colon?
  {
    forall j | 0 <= j < |ps| - 1 ensures !ps[1..][j].Colon? {
      assert ps[1..][j] == ps[j + 1];
    }
  }

  lemma {:induction false} NamedRender(s: string, i: nat, ps: seq<Piece>)
    requires WellFormed(ps) && NoColon(ps)
    requires i <= |s| && s[i..] == Render(ps)
    ensures NamedFrom(s, i) == NamesOf(ps)
    decreases |ps|
  {
    if ps == [] {
      assert i == |s|;
    } else {
      PieceAt(s, i, ps);
      NoColonTail(ps);
      NamedPieceAt(s, i, ps[0]);
      NamedRender(s, i + |PieceText(ps[0])|, ps[1..]);
    }
  }

  // ---------------------------------------------------------------------------
  // The positional count of a template.

  lemma {:induction false} PositionalSkips(s: string, i: nat, j: nat)
    requires i <= j <= |s|
    requires forall k :: i <= k < j ==> !PositionalAt(s, k)
    ensures PositionalFrom(s, i) == PositionalFrom(s, j)
    decreases j - i
  {
    if i < j {
      PositionalSkips(s, i + 1, j);
    }
  }

  lemma PositionalMarkerAt(s: string, i: nat)
    requires i + 2 <= |s| && s[i] == '%' && s[i + 1] == 's' && (i > 0 ==> s[i - 1] != '%')
    ensures PositionalFrom(s, i) == 1 + PositionalFrom(s, i + 2)
  {
    assert PositionalAt(s, i);
  }

  lemma PositionalOtherAt(s: string, i: nat, p: Piece)
    requires PieceOk(p) && !p.Positional?
    requires i + |PieceText(p)| <= |s|
    requires forall k :: 0 <= k < |PieceText(p)| ==> s[i + k] == PieceText(p)[k]
    requires p.Percent? && i + 1 < |s| ==> s[i + 1] != 's'
    ensures PositionalFrom(s, i) == PositionalFrom(s, i + |PieceText(p)|)
  {
    var t := PieceText(p);
    forall k | i <= k < i + |t|
      ensures !PositionalAt(s, k)
    {
      assert s[k] == t[k - i];
      if k + 1 < i + |t| {
        assert s[k + 1] == t[k + 1 - i];
      }
      if (p.Colon? || p.DoubleColon?) && k >= i + |t| - |p.name| {
        assert t[k - i] == p.name[k - i - |t| + |p.name|];
      } else if p.Named? && i + 2 <= k < i + 2 + |p.name| {
        assert t[k - i] == p.name[k - i - 2];
      } else if p.EscapedPercent? && k == i + 1 {
        assert s[k - 1] == t[0] == '%';
      }
    }
    PositionalSkips(s, i, i + |t|);
  }

  /** The positional scan over one piece. */
  lemma PositionalPieceAt(s: string, i: nat, p: Piece)
    requires PieceOk(p)
    requires i + |PieceText(p)| <= |s|
    requires forall k :: 0 <= k < |PieceText(p)| ==> s[i + k] == PieceText(p)[k]
    requires p.Positional? && i > 0 ==> s[i - 1] != '%'
    requires p.Percent? && i + 1 < |s| ==> s[i + 1] != 's'
    ensures PositionalFrom(s, i) == (if p.Positional? then 1 else 0) + PositionalFrom(s, i + |PieceText(p)|)
  {
    if p.Positional? {
      assert s[i] == PieceText(p)[0] && s[i + 1] == PieceText(p)[1];
      PositionalMarkerAt(s, i);
    } else {
      PositionalOtherAt(s, i, p);
    }
  }

  /** One step of the positional scan over a template: the first piece is
      counted, and the rest of the template starts where it ends. */
  lemma PositionalStep(s: string, i: nat, ps: seq<Piece>)
    requires WellFormed(ps) && ps != []
    requires i <= |s| && s[i..] == Render(ps)
    requires ps[0].Positional? && i > 0 ==> s[i - 1] != '%'
    ensures var j := i + |PieceText(ps[0])|;
      && j <= |s| && s[j..] == Render(ps[1..]) && WellFormed(ps[1..])
      && (ps[1..] != [] && ps[1..][0].Positional? ==> s[j - 1] != '%')
      && PositionalFrom(s, i) == (if ps[0].Positional? then 1 else 0) + PositionalFrom(s, j)
  {
    PieceAt(s, i, ps);
    PositionalPieceAt(s, i, ps[0]);
    assert |ps| > 1 ==> ps[1..][0] == ps[1];
  }

  lemma {:induction false} PositionalRender(s: string, i: nat, ps: seq<Piece>)
    requires WellFormed(ps)
    requires i <= |s| && s[i..] == Render(ps)
    requires ps != [] && ps[0].Positional? && i > 0 ==> s[i - 1] != '%'
    ensures PositionalFrom(s, i) == PositionalsOf(ps)
    decreases |ps|
  {
    if ps == [] {
      assert i == |s|;
    } else {
      var j := i + |PieceText(ps[0])|;
      PositionalStep(s, i, ps);
      PositionalRender(s, j, ps[1..]);
      var here, rest := PositionalFrom(s, i), PositionalFrom(s, j);
      PositionalJoin(here, rest, ps);
    }
  }

  lemma PositionalJoin(here: nat, rest: nat, ps: seq<Piece>)
    requires ps != []
    requires here == (if ps[0].Positional? then 1 else 0) + rest
    requires rest == PositionalsOf(ps[1..])
    ensures here == PositionalsOf(ps)
  {
  }

  // ---------------------------------------------------------------------------
  // The analyser against the reference.

  /** Analysing the text of a well-formed template yields its canonical text,
      the names of its named and colon markers and the number of its `%s`
      markers, or the mixed-style error when it has markers of both kinds. */
  lemma AnalyseTemplate(ps: seq<Piece>)
    requires WellFormed(ps)
    ensures Analyse(Render(ps)) ==
      if NamesOf(ps) != {} && PositionalsOf(ps) > 0 then Err(ParameterError(MixedStyles, []))
      else Ok(Analysis(Render(Canonical(ps)), NamesOf(ps), PositionalsOf(ps)))
  {
    var c := Canonical(ps);
    var s := Render(ps);
    NormaliseRender(s, 0, ps);
    assert Normalise(s) == Render(c);
    NamedRender(Render(c), 0, c);
    PositionalRender(Render(c), 0, c);
  }

  /** A colon marker and the named marker it stands for give the same
      analysis: `:id` behaves exactly as `%(id)s`. */
  lemma ColonAndNamedAgree(ps: seq<Piece>)
    requires WellFormed(ps)
    ensures Analyse(Render(ps)) == Analyse(Render(Canonical(ps)))
  {
    var c := Canonical(ps);
    AnalyseTemplate(ps);
    AnalyseTemplate(c);
    assert Canonical(c) == c;
  }
}
