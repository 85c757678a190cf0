/** The parser accepts exactly the grammatical texts, and reads each as what it means. */
module JsonExact {
  import opened Bytes
  import opened Utf8
  import opened Json
  import opened JsonParser
  import opened JsonText

  lemma {:induction false} SkipSpaces(ws: bytes, rest: bytes)
    requires Spaces(ws)
    ensures SkipSpace(ws + rest) == SkipSpace(rest)
  {
    if ws == [] {
      assert ws + rest == rest;
    } else {
      assert (ws + rest)[1..] == ws[1..] + rest;
      SkipSpaces(ws[1..], rest);
    }
  }

  lemma {:induction false} SpacesSkipped(s: bytes) returns (ws: bytes)
    ensures Spaces(ws) && s == ws + SkipSpace(s)
  {
    if s != [] && IsSpace(s[0]) {
      var more := SpacesSkipped(s[1..]);
      ws := [s[0]] + more;
      assert s == [s[0]] + s[1..];
    } else {
      ws := [];
    }
  }

  lemma {:induction false} SkipAllDigits(d: bytes, rest: bytes)
    requires Digits(d) && (rest == [] || !IsDigit(rest[0]))
    ensures SkipDigits(d + rest) == rest
  {
    if d == [] {
      assert d + rest == rest;
    } else {
      assert (d + rest)[1..] == d[1..] + rest;
      SkipAllDigits(d[1..], rest);
    }
  }

  lemma {:induction false} DigitsSkipped(s: bytes) returns (d: bytes)
    ensures Digits(d) && s == d + SkipDigits(s)
  {
    if s != [] && IsDigit(s[0]) {
      var more := DigitsSkipped(s[1..]);
      d := [s[0]] + more;
      assert s == [s[0]] + s[1..];
    } else {
      d := [];
    }
  }

  // Strings.

  lemma HexPrefix(d: bytes, rest: bytes)
    requires FourHex(d)
    ensures IsHex4(d + rest) && Hex4Value(d + rest) == Hex4Value(d) && (d + rest)[4..] == rest
  {
    assert forall i | 0 <= i < 4 :: (d + rest)[i] == d[i];
  }

  lemma UnitComplete(p: Piece, rest: bytes)
    requires PieceOk(p) && p.Unit?
    ensures ParseUnicode(p.digits + rest) == Read(Hex4Value(p.digits), rest)
  {
    HexPrefix(p.digits, rest);
  }

  lemma SurrogatesComplete(p: Piece, rest: bytes)
    requires PieceOk(p) && p.Surrogates?
    ensures ParseUnicode(p.high + ([BACKSLASH, LETTER_U] + (p.low + rest))) ==
            Read(0x10000 + (Hex4Value(p.high) - 0xD800) * 1024 + (Hex4Value(p.low) - 0xDC00), rest)
  {
    var tail := [BACKSLASH, LETTER_U] + (p.low + rest);
    var u := p.high + tail;
    HexPrefix(p.high, tail);
    HexPrefix(p.low, rest);
    assert u[6..] == tail[2..] == p.low + rest;
    assert u[10..] == (p.low + rest)[4..];
  }

  lemma UnicodeComplete(p: Piece, rest: bytes)
    requires PieceOk(p) && (p.Unit? || p.Surrogates?)
    ensures var r := ParseUnicode((SpellPiece(p) + rest)[2..]);
            r.Read? && r.rest == rest && Encode(r.value) == PieceMeaning(p)
  {
    BehindEscape(p, rest);
    if p.Unit? { UnitComplete(p, rest); } else { SurrogatesComplete(p, rest); }
  }

  /** What follows backslash u. */
  lemma BehindEscape(p: Piece, rest: bytes)
    requires p.Unit? || p.Surrogates?
    ensures (SpellPiece(p) + rest)[2..] ==
            if p.Unit? then p.digits + rest else p.high + ([BACKSLASH, LETTER_U] + (p.low + rest))
  {}

  lemma {:induction false} PieceComplete(p: Piece, rest: bytes, out: bytes)
    requires PieceOk(p)
    ensures ParseCharacters(SpellPiece(p) + rest, out) == ParseCharacters(rest, out + PieceMeaning(p))
  {
    var s := SpellPiece(p) + rest;
    match p {
      case Raw(b) => assert s[1..] == rest;
      case Short(c) => assert s[2..] == rest;
      case _ =>
        UnicodeComplete(p, rest);
        assert s[0] == BACKSLASH && s[1] == LETTER_U;
    }
  }

  lemma {:induction false} CharactersComplete(ps: seq<Piece>, rest: bytes, out: bytes)
    requires PiecesOk(ps)
    ensures ParseCharacters(SpellPieces(ps) + ([QUOTE] + rest), out) == Read(out + StringMeaning(ps), rest)
  {
    if ps == [] {
      assert SpellPieces(ps) + ([QUOTE] + rest) == [QUOTE] + rest;
      assert ([QUOTE] + rest)[1..] == rest;
      assert out + [] == out;
    } else {
      var tail := SpellPieces(ps[1..]) + ([QUOTE] + rest);
      assert SpellPieces(ps) + ([QUOTE] + rest) == SpellPiece(ps[0]) + tail;
      PieceComplete(ps[0], tail, out);
      CharactersComplete(ps[1..], rest, out + PieceMeaning(ps[0]));
      assert out + PieceMeaning(ps[0]) + StringMeaning(ps[1..]) == out + StringMeaning(ps);
    }
  }

  lemma StringComplete(ps: seq<Piece>, rest: bytes)
    requires PiecesOk(ps)
    ensures ParseString(SpellString(ps) + rest) == Read(StringMeaning(ps), rest)
  {
    var s := SpellString(ps) + rest;
    assert s[0] == QUOTE && s[1..] == SpellPieces(ps) + ([QUOTE] + rest);
    CharactersComplete(ps, rest, []);
    assert [] + StringMeaning(ps) == StringMeaning(ps);
  }

  lemma FourSound(s: bytes) returns (d: bytes)
    requires IsHex4(s)
    ensures FourHex(d) && Hex4Value(d) == Hex4Value(s) && s == d + s[4..]
  {
    d := s[..4];
    assert forall i | 0 <= i < 4 :: d[i] == s[i];
  }

  lemma SurrogateText(s: bytes, d: bytes, l: bytes)
    requires |s| >= 10 && |d| == |l| == 4 && s == d + s[4..] && s[6..] == l + s[6..][4..]
    requires s[4] == BACKSLASH && s[5] == LETTER_U
    ensures [BACKSLASH, LETTER_U] + s == SpellPiece(Surrogates(d, l)) + s[10..]
  {
    var mark := [BACKSLASH, LETTER_U];
    assert s[4..] == mark + s[6..];
    assert s[10..] == s[6..][4..];
    Join(mark, d, mark, l, s[10..]);
  }

  lemma UnicodeSound(s: bytes) returns (p: Piece)
    requires ParseUnicode(s).Read?
    ensures PieceOk(p) && PieceMeaning(p) == Encode(ParseUnicode(s).value)
    ensures [BACKSLASH, LETTER_U] + s == SpellPiece(p) + ParseUnicode(s).rest
  {
    if 0xD800 <= Hex4Value(s) <= 0xDBFF { p := SurrogatesSound(s); } else { p := UnitSound(s); }
  }

  lemma UnitSound(s: bytes) returns (p: Piece)
    requires ParseUnicode(s).Read? && !(0xD800 <= Hex4Value(s) <= 0xDBFF)
    ensures PieceOk(p) && PieceMeaning(p) == Encode(ParseUnicode(s).value)
    ensures [BACKSLASH, LETTER_U] + s == SpellPiece(p) + ParseUnicode(s).rest
  {
    var d := FourSound(s);
    p := Unit(d);
  }

  lemma SurrogatesRead(s: bytes)
    requires ParseUnicode(s).Read? && 0xD800 <= Hex4Value(s) <= 0xDBFF
    ensures |s| >= 10 && s[4] == BACKSLASH && s[5] == LETTER_U && IsHex4(s[6..]) && 0xDC00 <= Hex4Value(s[6..]) <= 0xDFFF
    ensures ParseUnicode(s) == Read(0x10000 + (Hex4Value(s) - 0xD800) * 1024 + (Hex4Value(s[6..]) - 0xDC00), s[10..])
  {}

  lemma SurrogatesSound(s: bytes) returns (p: Piece)
    requires ParseUnicode(s).Read? && 0xD800 <= Hex4Value(s) <= 0xDBFF
    ensures PieceOk(p) && PieceMeaning(p) == Encode(ParseUnicode(s).value)
    ensures [BACKSLASH, LETTER_U] + s == SpellPiece(p) + ParseUnicode(s).rest
  {
    SurrogatesRead(s);
    var d := FourSound(s);
    var l := FourSound(s[6..]);
    p := Surrogates(d, l);
    SurrogateText(s, d, l);
  }

  lemma {:induction false} PieceSound(s: bytes) returns (p: Piece, tail: bytes)
    requires s != [] && s[0] >= 0x20 && s[0] != QUOTE
    requires s[0] == BACKSLASH ==>
               |s| > 1 && (ShortEscape(s[1]) >= 0 || (s[1] == LETTER_U && ParseUnicode(s[2..]).Read?))
    ensures PieceOk(p) && s == SpellPiece(p) + tail
    ensures s[0] != BACKSLASH ==> tail == s[1..] && PieceMeaning(p) == [s[0]]
    ensures s[0] == BACKSLASH && ShortEscape(s[1]) >= 0 ==> tail == s[2..] && PieceMeaning(p) == [ShortEscape(s[1])]
    ensures s[0] == BACKSLASH && ShortEscape(s[1]) < 0 ==>
              tail == ParseUnicode(s[2..]).rest && PieceMeaning(p) == Encode(ParseUnicode(s[2..]).value)
  {
    if s[0] != BACKSLASH {
      p, tail := Raw(s[0]), s[1..];
    } else if ShortEscape(s[1]) >= 0 {
      p, tail := Short(s[1]), s[2..];
    } else {
      p := UnicodeSound(s[2..]);
      tail := ParseUnicode(s[2..]).rest;
      assert s == [BACKSLASH, LETTER_U] + s[2..];
    }
  }

  lemma {:induction false} CharactersSound(s: bytes, out: bytes) returns (ps: seq<Piece>)
    requires ParseCharacters(s, out).Read?
    ensures PiecesOk(ps)
    ensures s == SpellPieces(ps) + ([QUOTE] + ParseCharacters(s, out).rest)
    ensures ParseCharacters(s, out).value == out + StringMeaning(ps)
    decreases |s|
  {
    if s[0] == QUOTE {
      ps := [];
      assert s == [] + ([QUOTE] + s[1..]);
      assert out + [] == out;
    } else {
      var p, tail := PieceSound(s);
      assert ParseCharacters(s, out) == ParseCharacters(tail, out + PieceMeaning(p));
      var more := CharactersSound(tail, out + PieceMeaning(p));
      ps := [p] + more;
      assert ps[1..] == more;
      Associate(out, PieceMeaning(p), StringMeaning(more));
      Associate(SpellPiece(p), SpellPieces(more), [QUOTE] + ParseCharacters(s, out).rest);
    }
  }

  lemma StringSound(s: bytes) returns (ps: seq<Piece>)
    requires ParseString(s).Read?
    ensures PiecesOk(ps) && s == SpellString(ps) + ParseString(s).rest && ParseString(s).value == StringMeaning(ps)
  {
    ps := CharactersSound(s[1..], []);
    assert s == [QUOTE] + s[1..];
    StringSpelling(ps, ParseString(s).rest);
    assert [] + StringMeaning(ps) == StringMeaning(ps);
  }

  lemma StringSpelling(ps: seq<Piece>, rest: bytes)
    ensures SpellString(ps) + rest == [QUOTE] + (SpellPieces(ps) + ([QUOTE] + rest))
  {}

  // Numbers.

  /** What may follow a number in a document. */
  predicate EndsNumber(rest: bytes) {
    rest == [] || IsSpace(rest[0]) || rest[0] == COMMA || rest[0] == CLOSE_BRACKET || rest[0] == CLOSE_BRACE
  }

  lemma IntegerComplete(i: bytes, rest: bytes)
    requires i != [] && Digits(i) && (i[0] == ZERO ==> |i| == 1)
    requires rest == [] || !IsDigit(rest[0])
    ensures ParseInteger(i + rest) == Read((), rest)
  {
    assert (i + rest)[1..] == i[1..] + rest;
    if i[0] != ZERO { SkipAllDigits(i[1..], rest); }
    else { assert i[1..] + rest == rest; }
  }

  lemma FractionComplete(f: bytes, rest: bytes)
    requires Digits(f)
    requires rest == [] || (!IsDigit(rest[0]) && rest[0] != 0x2E)
    ensures ParseFraction((if f == [] then [] else [0x2E] + f) + rest) == Read((), rest)
  {
    if f == [] {
      assert [] + rest == rest;
    } else {
      assert (([0x2E] + f) + rest)[1..] == f + rest;
      SkipAllDigits(f, rest);
      assert |f + rest| != |rest|;
    }
  }

  lemma DigitsFirst(d: bytes, rest: bytes)
    requires d != [] && Digits(d) && (rest == [] || !IsDigit(rest[0]))
    ensures var t := d + rest; IsDigit(t[0]) && SkipDigits(t) == rest != t
  {
    SkipAllDigits(d, rest);
    assert |d + rest| > |rest|;
  }

  lemma PlainExponent(c: Byte, d: bytes, rest: bytes)
    requires c == 0x65 || c == 0x45
    requires d != [] && Digits(d) && (rest == [] || !IsDigit(rest[0]))
    ensures ParseExponent([c] + (d + rest)) == Read((), rest)
  {
    DigitsFirst(d, rest);
    var s := [c] + (d + rest);
    assert s[1..] == d + rest && s[1] == (d + rest)[0];
  }

  lemma SignedExponent(c: Byte, sign: Byte, d: bytes, rest: bytes)
    requires (c == 0x65 || c == 0x45) && (sign == 0x2B || sign == MINUS)
    requires d != [] && Digits(d) && (rest == [] || !IsDigit(rest[0]))
    ensures ParseExponent([c, sign] + (d + rest)) == Read((), rest)
  {
    DigitsFirst(d, rest);
    var s := [c, sign] + (d + rest);
    assert s[2..] == d + rest;
  }

  lemma ExponentComplete(e: ExponentText, rest: bytes)
    requires ExponentOk(e)
    requires rest == [] || (!IsDigit(rest[0]) && rest[0] != 0x65 && rest[0] != 0x45)
    ensures ParseExponent(SpellExponent(e) + rest) == Read((), rest)
  {
    ExponentSpelling(e, rest);
    if e.Exponent? {
      if e.sign == [] { PlainExponent(e.letter, e.digits, rest); } else { SignedExponent(e.letter, e.sign[0], e.digits, rest); }
    }
  }

  lemma ExponentSpelling(e: ExponentText, rest: bytes)
    requires ExponentOk(e)
    ensures e.NoExponent? ==> SpellExponent(e) + rest == rest
    ensures e.Exponent? && e.sign == [] ==> SpellExponent(e) + rest == [e.letter] + (e.digits + rest)
    ensures e.Exponent? && e.sign != [] ==> SpellExponent(e) + rest == [e.letter, e.sign[0]] + (e.digits + rest)
  {}

  lemma NumberEndComplete(n: NumberText, rest: bytes)
    requires NumberOk(n) && EndsNumber(rest)
    ensures ParseNumberEnd(SpellNumber(n) + rest) == Read((), rest)
  {
    var minus := if n.minus then [MINUS] else [];
    var fraction := if n.fraction == [] then [] else [0x2E] + n.fraction;
    var exponent := SpellExponent(n.exponent);
    var s1 := fraction + (exponent + rest);
    var s0 := n.integer + s1;
    Join(minus, n.integer, fraction, exponent, rest);
    assert minus + s0 == SpellNumber(n) + rest;
    TailComplete(n, rest);
    IntegerComplete(n.integer, s1);
    FirstOfJoin(n.integer, s1);
    if n.minus { assert (minus + s0)[1..] == s0; } else { assert minus + s0 == s0; }
  }

  /** Fraction and exponent are read behind the integer part, and no digit follows it. */
  lemma TailComplete(n: NumberText, rest: bytes)
    requires NumberOk(n) && EndsNumber(rest)
    ensures var s2 := SpellExponent(n.exponent) + rest;
            var s1 := (if n.fraction == [] then [] else [0x2E] + n.fraction) + s2;
            && ParseFraction(s1) == Read((), s2) && ParseExponent(s2) == Read((), rest)
            && (s1 == [] || !IsDigit(s1[0]))
  {
    var exponent := SpellExponent(n.exponent);
    ExponentComplete(n.exponent, rest);
    FirstOfJoin(exponent, rest);
    FractionComplete(n.fraction, exponent + rest);
    FirstOfJoin(if n.fraction == [] then [] else [0x2E] + n.fraction, exponent + rest);
  }

  lemma FirstOfJoin(a: bytes, b: bytes)
    ensures a == [] ==> a + b == b
    ensures a != [] ==> a + b != [] && (a + b)[0] == a[0]
  {}

  lemma NumberComplete(n: NumberText, rest: bytes)
    requires NumberOk(n) && EndsNumber(rest)
    ensures ParseNumber(SpellNumber(n) + rest) == Read(Number(SpellNumber(n)), rest)
  {
    NumberEndComplete(n, rest);
    var s := SpellNumber(n) + rest;
    assert s[..|s| - |rest|] == SpellNumber(n);
  }

  lemma IntegerSound(s: bytes) returns (i: bytes)
    requires ParseInteger(s).Read?
    ensures i != [] && Digits(i) && (i[0] == ZERO ==> |i| == 1) && s == i + ParseInteger(s).rest
  {
    assert s == [s[0]] + s[1..];
    if s[0] == ZERO {
      i := [ZERO];
    } else {
      var more := DigitsSkipped(s[1..]);
      i := [s[0]] + more;
    }
  }

  lemma FractionSound(s: bytes) returns (f: bytes)
    requires ParseFraction(s).Read?
    ensures Digits(f) && s == (if f == [] then [] else [0x2E] + f) + ParseFraction(s).rest
  {
    f := [];
    if s != [] && s[0] == 0x2E {
      f := DigitsSkipped(s[1..]);
      assert s == [0x2E] + s[1..];
    }
  }

  lemma ExponentSpelled(s: bytes, e: ExponentText, n: nat, rest: bytes)
    requires e.Exponent? && n <= |s| && [e.letter] + e.sign == s[..n] && s[n..] == e.digits + rest
    ensures s == SpellExponent(e) + rest
  {
    assert s == s[..n] + s[n..];
    Associate(s[..n], e.digits, rest);
  }

  lemma ExponentSound(s: bytes) returns (e: ExponentText)
    requires ParseExponent(s).Read?
    ensures ExponentOk(e) && s == SpellExponent(e) + ParseExponent(s).rest
  {
    if s == [] || (s[0] != 0x65 && s[0] != 0x45) {
      e := NoExponent;
    } else if |s| > 1 && (s[1] == 0x2B || s[1] == MINUS) {
      var d := DigitsSkipped(s[2..]);
      e := Exponent(s[0], [s[1]], d);
      ExponentSpelled(s, e, 2, ParseExponent(s).rest);
    } else {
      var d := DigitsSkipped(s[1..]);
      e := Exponent(s[0], [], d);
      ExponentSpelled(s, e, 1, ParseExponent(s).rest);
    }
  }

  lemma NumberSound(s: bytes) returns (n: NumberText)
    requires ParseNumber(s).Read?
    ensures NumberOk(n) && s == SpellNumber(n) + ParseNumber(s).rest
    ensures ParseNumber(s).value == Number(SpellNumber(n))
  {
    var minus := s[0] == MINUS;
    var s0 := if minus then s[1..] else s;
    var integer := IntegerSound(s0);
    var fraction := FractionSound(ParseInteger(s0).rest);
    var s2 := ParseFraction(ParseInteger(s0).rest).rest;
    var exponent := ExponentSound(s2);
    n := NumberText(minus, integer, fraction, exponent);
    var rest := ParseExponent(s2).rest;
    Join(if minus then [MINUS] else [], integer, if fraction == [] then [] else [0x2E] + fraction, SpellExponent(exponent), rest);
    assert s == (if minus then [MINUS] else []) + s0;
    assert s[..|s| - |rest|] == SpellNumber(n);
  }

  lemma Join(a: bytes, b: bytes, c: bytes, d: bytes, e: bytes)
    ensures a + b + c + d + e == a + (b + (c + (d + e)))
  {
    Associate(a + b + c, d, e);
    Associate(a + b, c, d + e);
    Associate(a, b, c + (d + e));
  }
}
