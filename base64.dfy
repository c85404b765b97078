/** Base64 with the standard alphabet and `=` padding (section 4 of
    RFC 4648), as `base64.b64encode` produces it for byte columns of a
    result row (sigur/services/mysql.py lines 69-71). The decoder accepts
    exactly the canonical encodings: it refuses characters outside the
    alphabet, padding anywhere but at the end and non-zero padding bits
    (section 3.5 of RFC 4648). */
module Base64 {
  import opened Wrappers

  type byte = x: int | 0 <= x < 256

  /** The character of a 6-bit value: A-Z, a-z, 0-9, '+', '/'. */
  function SextetChar(n: nat): (c: char)
    requires n < 64
    ensures c != '='
  {
    if n < 26 then ('A' as int + n) as char
    else if n < 52 then ('a' as int + (n - 26)) as char
    else if n < 62 then ('0' as int + (n - 52)) as char
    else if n == 62 then '+'
    else '/'
  }

  /** The 6-bit value of an alphabet character. */
  function SextetOf(c: char): (r: Option<nat>)
    ensures r.Some? ==> r.value < 64 && SextetChar(r.value) == c
    ensures c == '=' ==> r.None?
  {
    if 'A' <= c <= 'Z' then Some(c as int - 'A' as int)
    else if 'a' <= c <= 'z' then Some(c as int - 'a' as int + 26)
    else if '0' <= c <= '9' then Some(c as int - '0' as int + 52)
    else if c == '+' then Some(62)
    else if c == '/' then Some(63)
    else None
  }

  /** Every 6-bit value is read back from its character. */
  lemma SextetRoundTrip(n: nat)
    requires n < 64
    ensures SextetOf(SextetChar(n)) == Some(n)
  {
  }

  /** Three bytes as four characters. */
  function EncodeGroup(a: byte, b: byte, c: byte): (s: string)
    ensures |s| == 4 && forall i :: 0 <= i < 4 ==> SextetOf(s[i]).Some?
  {
    [SextetChar(a / 4), SextetChar(a % 4 * 16 + b / 16), SextetChar(b % 16 * 4 + c / 64), SextetChar(c % 64)]
  }

  /** The number of `=` at the end of the encoding of `n` bytes. */
  function Padding(n: nat): nat {
    if n % 3 == 0 then 0 else 3 - n % 3
  }

  /** `base64.b64encode`: four characters per started group of three
      bytes, the last group padded with `=`. */
  function Encode(bs: seq<byte>): (s: string)
    ensures |s| == 4 * ((|bs| + 2) / 3)
    decreases |bs|
  {
    if |bs| == 0 then ""
    else if |bs| == 1 then [SextetChar(bs[0] / 4), SextetChar(bs[0] % 4 * 16), '=', '=']
    else if |bs| == 2 then [SextetChar(bs[0] / 4), SextetChar(bs[0] % 4 * 16 + bs[1] / 16), SextetChar(bs[1] % 16 * 4), '=']
    else EncodeGroup(bs[0], bs[1], bs[2]) + Encode(bs[3..])
  }

  /** `s` is alphabet characters followed by exactly `pad` `=` signs. */
  predicate Padded(s: string, pad: nat) {
    (forall i :: 0 <= i < |s| ==> (s[i] == '=' <==> i >= |s| - pad))
    && (forall i :: 0 <= i < |s| && s[i] != '=' ==> SextetOf(s[i]).Some?)
  }

  /** A group of alphabet characters in front of a padded text. */
  lemma PaddedCons(g: string, rest: string, pad: nat)
    requires |g| == 4 && forall i :: 0 <= i < 4 ==> SextetOf(g[i]).Some?
    requires Padded(rest, pad) && pad <= |rest|
    ensures Padded(g + rest, pad)
  {
    var s := g + rest;
    forall i | 0 <= i < |s|
      ensures (s[i] == '=' <==> i >= |s| - pad) && (s[i] != '=' ==> SextetOf(s[i]).Some?)
    {
      if i < 4 {
        assert s[i] == g[i];
      } else {
        assert s[i] == rest[i - 4];
      }
    }
  }

  /** The encoding uses the alphabet only, followed by as many `=` as the
      last group lacks bytes. */
  lemma {:induction false} EncodeAlphabet(bs: seq<byte>)
    ensures Padded(Encode(bs), Padding(|bs|))
    decreases |bs|
  {
    if |bs| >= 3 {
      EncodeAlphabet(bs[3..]);
      assert Padding(|bs|) == Padding(|bs[3..]|);
      PaddedCons(EncodeGroup(bs[0], bs[1], bs[2]), Encode(bs[3..]), Padding(|bs|));
    } else if |bs| == 2 {
      SextetRoundTrip(bs[0] / 4);
      SextetRoundTrip(bs[0] % 4 * 16 + bs[1] / 16);
      SextetRoundTrip(bs[1] % 16 * 4);
    } else if |bs| == 1 {
      SextetRoundTrip(bs[0] / 4);
      SextetRoundTrip(bs[0] % 4 * 16);
    }
  }

  /** One group of four characters; `last` allows padding. */
  function DecodeGroup(c0: char, c1: char, c2: char, c3: char, last: bool): (r: Option<seq<byte>>)
    ensures r.Some? ==> 1 <= |r.value| <= 3
    ensures r.Some? && !last ==> |r.value| == 3
  {
    var x0, x1, x2, x3 := SextetOf(c0), SextetOf(c1), SextetOf(c2), SextetOf(c3);
    if x0.None? || x1.None? then None
    else
      var a := x0.value * 4 + x1.value / 16;
      if last && c2 == '=' && c3 == '=' then
        if x1.value % 16 == 0 then Some([a]) else None
      else if x2.None? then None
      else
        var b := x1.value % 16 * 16 + x2.value / 4;
        if last && c3 == '=' then
          if x2.value % 4 == 0 then Some([a, b]) else None
        else if x3.None? then None
        else Some([a, b, x2.value % 4 * 64 + x3.value])
  }

  /** The bytes of a canonical encoding, or `None` for any other text. */
  function Decode(s: string): (r: Option<seq<byte>>)
    decreases |s|
  {
    if |s| == 0 then Some([])
    else if |s| < 4 then None
    else
      var head := DecodeGroup(s[0], s[1], s[2], s[3], |s| == 4);
      if head.None? then None
      else
        var tail := Decode(s[4..]);
        if tail.None? then None else Some(head.value + tail.value)
  }

  // ---------------------------------------------------------------------------
  // Round trips.

  /** The middle sextets keep the bits of their two bytes. */
  lemma MiddleSextets(a: byte, b: byte, c: byte)
    ensures var x1, x2 := a % 4 * 16 + b / 16, b % 16 * 4 + c / 64;
      x1 < 64 && x1 / 16 == a % 4 && x1 % 16 == b / 16
      && x2 < 64 && x2 / 4 == b % 16 && x2 % 4 == c / 64
  {
  }

  /** Three bytes are read back from their four characters. */
  lemma GroupRoundTrip(a: byte, b: byte, c: byte)
    ensures var s := EncodeGroup(a, b, c);
      DecodeGroup(s[0], s[1], s[2], s[3], false) == Some([a, b, c])
      && DecodeGroup(s[0], s[1], s[2], s[3], true) == Some([a, b, c])
  {
    var x0, x1, x2, x3 := a / 4, a % 4 * 16 + b / 16, b % 16 * 4 + c / 64, c % 64;
    MiddleSextets(a, b, c);
    SextetRoundTrip(x0);
    SextetRoundTrip(x1);
    SextetRoundTrip(x2);
    SextetRoundTrip(x3);
  }

  /** Two bytes are read back from their padded group. */
  lemma PairGroup(a: byte, b: byte)
    ensures DecodeGroup(SextetChar(a / 4), SextetChar(a % 4 * 16 + b / 16), SextetChar(b % 16 * 4), '=', true)
            == Some([a, b])
  {
    MiddleSextets(a, b, 0);
    SextetRoundTrip(a / 4);
    SextetRoundTrip(a % 4 * 16 + b / 16);
    SextetRoundTrip(b % 16 * 4);
  }

  /** One byte is read back from its padded group. */
  lemma SingleGroup(a: byte)
    ensures DecodeGroup(SextetChar(a / 4), SextetChar(a % 4 * 16), '=', '=', true) == Some([a])
  {
    SextetRoundTrip(a / 4);
    SextetRoundTrip(a % 4 * 16);
  }

  /** Four characters that are the whole text. */
  lemma DecodeLast(g: string, h: seq<byte>)
    requires |g| == 4 && DecodeGroup(g[0], g[1], g[2], g[3], true) == Some(h)
    ensures Decode(g) == Some(h)
  {
    assert g[4..] == [];
    assert h + [] == h;
  }

  lemma PairRoundTrip(bs: seq<byte>)
    requires |bs| == 2
    ensures Decode(Encode(bs)) == Some(bs)
  {
    PairGroup(bs[0], bs[1]);
    DecodeLast(Encode(bs), [bs[0], bs[1]]);
    assert [bs[0], bs[1]] == bs;
  }

  lemma SingleRoundTrip(bs: seq<byte>)
    requires |bs| == 1
    ensures Decode(Encode(bs)) == Some(bs)
  {
    SingleGroup(bs[0]);
    DecodeLast(Encode(bs), [bs[0]]);
    assert [bs[0]] == bs;
  }

  /** A full group followed by more text. */
  lemma DecodeCons(g: string, t: string, h: seq<byte>, u: seq<byte>)
    requires |g| == 4 && DecodeGroup(g[0], g[1], g[2], g[3], t == []) == Some(h)
    requires Decode(t) == Some(u)
    ensures Decode(g + t) == Some(h + u)
  {
    var s := g + t;
    assert s[0] == g[0] && s[1] == g[1] && s[2] == g[2] && s[3] == g[3];
    assert s[4..] == t;
  }

  /** A group of three bytes in front of bytes that already round-trip. */
  lemma GroupStep(bs: seq<byte>)
    requires |bs| >= 3 && Decode(Encode(bs[3..])) == Some(bs[3..])
    ensures Decode(Encode(bs)) == Some(bs)
  {
    var rest := bs[3..];
    var g := EncodeGroup(bs[0], bs[1], bs[2]);
    var head := [bs[0], bs[1], bs[2]];
    assert Encode(bs) == g + Encode(rest);
    GroupRoundTrip(bs[0], bs[1], bs[2]);
    DecodeCons(g, Encode(rest), head, rest);
    SplitThree(bs);
  }

  lemma SplitThree(bs: seq<byte>)
    requires |bs| >= 3
    ensures bs == [bs[0], bs[1], bs[2]] + bs[3..]
  {
  }

  /** Decoding undoes encoding. */
  lemma {:induction false} DecodeEncode(bs: seq<byte>)
    ensures Decode(Encode(bs)) == Some(bs)
    decreases |bs|
  {
    if |bs| == 1 {
      SingleRoundTrip(bs);
    } else if |bs| == 2 {
      PairRoundTrip(bs);
    } else if |bs| >= 3 {
      DecodeEncode(bs[3..]);
      GroupStep(bs);
    }
  }

  /** A group the decoder accepts is the encoding of the bytes it yields. */
  lemma GroupInverse(c0: char, c1: char, c2: char, c3: char, last: bool, h: seq<byte>)
    requires DecodeGroup(c0, c1, c2, c3, last) == Some(h)
    ensures Encode(h) == [c0, c1, c2, c3]
  {
    if |h| == 1 {
      SingleInverse(SextetOf(c0).value, SextetOf(c1).value, h);
    } else if |h| == 2 {
      PairInverse(SextetOf(c0).value, SextetOf(c1).value, SextetOf(c2).value, h);
    } else {
      var x0, x1, x2, x3 := SextetOf(c0).value, SextetOf(c1).value, SextetOf(c2).value, SextetOf(c3).value;
      TripleInverse(x0, x1, x2, x3, h);
    }
  }

  /** The bytes put together from four sextets give the sextets back. */
  lemma JoinSextets(x0: nat, x1: nat, x2: nat, x3: nat)
    requires x0 < 64 && x1 < 64 && x2 < 64 && x3 < 64
    ensures var a, b, c := x0 * 4 + x1 / 16, x1 % 16 * 16 + x2 / 4, x2 % 4 * 64 + x3;
      a < 256 && b < 256 && c < 256
      && a / 4 == x0 && a % 4 * 16 + b / 16 == x1 && b % 16 * 4 + c / 64 == x2 && c % 64 == x3
      && a % 4 * 16 == x1 - x1 % 16 && b % 16 * 4 == x2 - x2 % 4
  {
  }

  lemma SingleInverse(x0: nat, x1: nat, h: seq<byte>)
    requires x0 < 64 && x1 < 64 && x1 % 16 == 0
    requires h == [x0 * 4 + x1 / 16]
    ensures Encode(h) == [SextetChar(x0), SextetChar(x1), '=', '=']
  {
    JoinSextets(x0, x1, 0, 0);
  }

  lemma PairInverse(x0: nat, x1: nat, x2: nat, h: seq<byte>)
    requires x0 < 64 && x1 < 64 && x2 < 64 && x2 % 4 == 0
    requires h == [x0 * 4 + x1 / 16, x1 % 16 * 16 + x2 / 4]
    ensures Encode(h) == [SextetChar(x0), SextetChar(x1), SextetChar(x2), '=']
  {
    JoinSextets(x0, x1, x2, 0);
  }

  lemma TripleInverse(x0: nat, x1: nat, x2: nat, x3: nat, h: seq<byte>)
    requires x0 < 64 && x1 < 64 && x2 < 64 && x3 < 64
    requires h == [x0 * 4 + x1 / 16, x1 % 16 * 16 + x2 / 4, x2 % 4 * 64 + x3]
    ensures Encode(h) == [SextetChar(x0), SextetChar(x1), SextetChar(x2), SextetChar(x3)]
  {
    GroupOfSextets(x0, x1, x2, x3);
    EncodeThree(h);
  }

  /** The group of the bytes put together from four sextets. */
  lemma GroupOfSextets(x0: nat, x1: nat, x2: nat, x3: nat)
    requires x0 < 64 && x1 < 64 && x2 < 64 && x3 < 64
    ensures EncodeGroup(x0 * 4 + x1 / 16, x1 % 16 * 16 + x2 / 4, x2 % 4 * 64 + x3)
            == [SextetChar(x0), SextetChar(x1), SextetChar(x2), SextetChar(x3)]
  {
    JoinSextets(x0, x1, x2, x3);
  }

  /** The encoding of exactly three bytes is their group. */
  lemma EncodeThree(h: seq<byte>)
    requires |h| == 3
    ensures Encode(h) == EncodeGroup(h[0], h[1], h[2])
  {
    assert h[3..] == [];
  }

  /** A group of three decoded bytes in front of a tail that is already
      known to encode back. */
  lemma InverseStep(s: string, h: seq<byte>, u: seq<byte>)
    requires |s| > 4 && DecodeGroup(s[0], s[1], s[2], s[3], false) == Some(h)
    requires Encode(u) == s[4..]
    ensures Encode(h + u) == s
  {
    GroupInverse(s[0], s[1], s[2], s[3], false, h);
    EncodeThree(h);
    var bs := h + u;
    assert bs[0] == h[0] && bs[1] == h[1] && bs[2] == h[2] && bs[3..] == u;
    assert Encode(bs) == Encode(h) + Encode(u);
    assert s == [s[0], s[1], s[2], s[3]] + s[4..];
  }

  /** The decoder accepts nothing but encodings: whatever it decodes is
      encoded back to the same text. */
  lemma {:induction false} EncodeDecode(s: string, bs: seq<byte>)
    requires Decode(s) == Some(bs)
    ensures Encode(bs) == s
    decreases |s|
  {
    if |s| > 0 {
      var h := DecodeGroup(s[0], s[1], s[2], s[3], |s| == 4).value;
      var u := Decode(s[4..]).value;
      assert bs == h + u;
      EncodeDecode(s[4..], u);
      if |s| == 4 {
        GroupInverse(s[0], s[1], s[2], s[3], true, h);
        assert s[4..] == [] && u == [] && bs == h;
        assert s == [s[0], s[1], s[2], s[3]];
      } else {
        InverseStep(s, h, u);
      }
    }
  }
}
