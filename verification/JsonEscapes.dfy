/** The characters of JSON strings, by the letters of their escapes: what each escape is read as, and how each is printed. */
module JsonEscapes {
  import opened Bytes
  import opened Utf8
  import opened Json
  import opened JsonParser
  import opened JsonText
  import opened JsonExact

  // Hexadecimal digits.

  const LOWER_DIGITS := Ascii("0123456789abcdef")
  const UPPER_DIGITS := Ascii("0123456789ABCDEF")

  function DigitChar(v: nat, upper: bool): Byte
    requires v < 16
  {
    if upper then UPPER_DIGITS[v] else LOWER_DIGITS[v]
  }

  lemma LowerDigit(v: nat)
    requires v < 16
    ensures LOWER_DIGITS[v] == if v < 10 then 0x30 + v else 0x61 + (v - 10)
  {}

  lemma UpperDigit(v: nat)
    requires v < 16
    ensures UPPER_DIGITS[v] == if v < 10 then 0x30 + v else 0x41 + (v - 10)
  {}

  /** A byte has a value exactly when it is one of the sixteen digits in either case, and the value is the digit's place. */
  lemma HexValueExactly(c: Byte, v: int)
    requires v >= 0
    ensures HexValue(c) == v <==> v < 16 && (c == DigitChar(v, false) || c == DigitChar(v, true))
    ensures HexValue(c) >= -1 && (HexValue(c) == -1 <==> c !in LOWER_DIGITS && c !in UPPER_DIGITS)
  {
    if v < 16 {
      LowerDigit(v);
      UpperDigit(v);
    }
    var w := HexValue(c);
    if w >= 0 {
      LowerDigit(w);
      UpperDigit(w);
      assert c == LOWER_DIGITS[w] || c == UPPER_DIGITS[w];
    }
    if c in LOWER_DIGITS {
      var i: nat :| i < |LOWER_DIGITS| && LOWER_DIGITS[i] == c;
      LowerDigit(i);
    }
    if c in UPPER_DIGITS {
      var i: nat :| i < |UPPER_DIGITS| && UPPER_DIGITS[i] == c;
      UpperDigit(i);
    }
  }

  /** The digit writer is the lower-case one. */
  lemma HexDigitIsLower(v: nat)
    requires v < 16
    ensures HexDigit(v) == DigitChar(v, false)
  {
    LowerDigit(v);
  }

  /** A number as four digits, each in its own case. */
  function FourDigits(v: nat, upper: seq<bool>): (d: bytes)
    requires v < 0x10000 && |upper| == 4
    ensures |d| == 4
  {
    var (a, b, c, d) := Nibbles(v);
    [DigitChar(a, upper[0]), DigitChar(b, upper[1]), DigitChar(c, upper[2]), DigitChar(d, upper[3])]
  }

  function Nibbles(v: nat): (r: (nat, nat, nat, nat))
    requires v < 0x10000
    ensures r.0 < 16 && r.1 < 16 && r.2 < 16 && r.3 < 16
    ensures v == r.0 * 4096 + r.1 * 256 + r.2 * 16 + r.3
  {
    (v / 16 / 16 / 16, v / 16 / 16 % 16, v / 16 % 16, v % 16)
  }

  lemma DigitRead(v: nat, upper: bool)
    requires v < 16
    ensures HexValue(DigitChar(v, upper)) == v
  {
    HexValueExactly(DigitChar(v, upper), v);
  }

  /** Four digits are read back as the number they were written for, whatever the case of each. */
  lemma FourDigitsRead(v: nat, upper: seq<bool>)
    requires v < 0x10000 && |upper| == 4
    ensures FourHex(FourDigits(v, upper)) && Hex4Value(FourDigits(v, upper)) == v
  {
    var (a, b, c, d) := Nibbles(v);
    DigitRead(a, upper[0]);
    DigitRead(b, upper[1]);
    DigitRead(c, upper[2]);
    DigitRead(d, upper[3]);
  }

  /** The escape of a scalar value: one unit, or a surrogate pair (section 7 of RFC 8259). */
  function Escape(v: Scalar, upper: seq<bool>): Piece
    requires |upper| == 8
  {
    if v < 0x10000 then Unit(FourDigits(v, upper[..4]))
    else Surrogates(FourDigits(0xD800 + Halves(v).0, upper[..4]), FourDigits(0xDC00 + Halves(v).1, upper[4..]))
  }

  /** The two ten-bit halves of what is above the first plane. */
  function Halves(v: Scalar): (r: (nat, nat))
    requires v >= 0x10000
    ensures r.0 < 1024 && r.1 < 1024 && v == 0x10000 + r.0 * 1024 + r.1
  {
    ((v - 0x10000) / 1024, (v - 0x10000) % 1024)
  }

  lemma UnitMeans(d: bytes, v: Scalar)
    requires FourHex(d) && Hex4Value(d) == v
    ensures PieceOk(Unit(d)) && PieceMeaning(Unit(d)) == Encode(v)
  {}

  lemma PairMeans(h: bytes, l: bytes, v: Scalar)
    requires v >= 0x10000 && FourHex(h) && FourHex(l)
    requires Hex4Value(h) == 0xD800 + Halves(v).0 && Hex4Value(l) == 0xDC00 + Halves(v).1
    ensures PieceOk(Surrogates(h, l)) && PieceMeaning(Surrogates(h, l)) == Encode(v)
  {
    assert 0x10000 + (Hex4Value(h) - 0xD800) * 1024 + (Hex4Value(l) - 0xDC00) == v;
  }

  lemma EscapeMeans(v: Scalar, upper: seq<bool>)
    requires |upper| == 8
    ensures PieceOk(Escape(v, upper)) && PieceMeaning(Escape(v, upper)) == Encode(v)
  {
    if v < 0x10000 {
      FourDigitsRead(v, upper[..4]);
      UnitMeans(FourDigits(v, upper[..4]), v);
    } else {
      FourDigitsRead(0xD800 + Halves(v).0, upper[..4]);
      FourDigitsRead(0xDC00 + Halves(v).1, upper[4..]);
      PairMeans(FourDigits(0xD800 + Halves(v).0, upper[..4]), FourDigits(0xDC00 + Halves(v).1, upper[4..]), v);
    }
  }

  /** Every scalar value, written as an escape in any mixture of cases, is read as its UTF-8 encoding. */
  lemma EscapeRead(v: Scalar, upper: seq<bool>, rest: bytes)
    requires |upper| == 8
    ensures ParseString([QUOTE] + SpellPiece(Escape(v, upper)) + [QUOTE] + rest) == Read(Encode(v), rest)
  {
    var p := Escape(v, upper);
    EscapeMeans(v, upper);
    assert SpellPieces([p]) == SpellPiece(p) by { assert [p][1..] == []; }
    assert StringMeaning([p]) == PieceMeaning(p) by { assert [p][1..] == []; }
    StringComplete([p], rest);
  }

  // Two-character escapes and spaces.

  const ESCAPE_LETTERS := Ascii("\"\\/bfnrt")
  const ESCAPED_BYTES: bytes := [0x22, 0x5C, 0x2F, 0x08, 0x0C, 0x0A, 0x0D, 0x09]

  /** The eight letters behind a backslash and what each is read as; no other letter is one. */
  lemma ShortEscapesExactly(c: Byte)
    ensures forall i | 0 <= i < 8 :: ShortEscape(ESCAPE_LETTERS[i]) == ESCAPED_BYTES[i]
    ensures ShortEscape(c) >= 0 <==> c in ESCAPE_LETTERS
  {
    var l := ESCAPE_LETTERS;
    assert l[0] == 0x22 && l[1] == 0x5C && l[2] == 0x2F && l[3] == 0x62 && l[4] == 0x66 && l[5] == 0x6E && l[6] == 0x72 && l[7] == 0x74;
  }

  /** Space, tab, line feed and carriage return. */
  lemma SpacesExactly(c: Byte)
    ensures IsSpace(c) <==> c in Ascii(" \t\n\r")
  {
    var s := Ascii(" \t\n\r");
    assert s[0] == 0x20 && s[1] == 0x09 && s[2] == 0x0A && s[3] == 0x0D;
  }

  // The canonical spelling.

  lemma {:induction false} EscapedTogether(a: bytes, b: bytes)
    ensures Escaped(a + b) == Escaped(a) + Escaped(b)
  {
    if a == [] {
      assert a + b == b;
    } else {
      assert (a + b)[1..] == a[1..] + b;
      EscapedTogether(a[1..], b);
    }
  }

  lemma {:induction false} HighUnescaped(s: bytes)
    requires forall i | 0 <= i < |s| :: s[i] >= 0x80
    ensures Escaped(s) == s
  {
    if s != [] { HighUnescaped(s[1..]); }
  }

  lemma EncodedLength(v: Scalar)
    ensures v < 0x80 ==> Encode(v) == [v]
    ensures v >= 0x80 ==> 2 <= |Encode(v)| <= 4 && forall i | 0 <= i < |Encode(v)| :: Encode(v)[i] >= 0x80
  {}

  lemma OneEscaped(c: Byte)
    ensures Escaped([c]) == EscapeByte(c) && |EscapeByte(c)| <= 6
  {
    assert [c][1..] == [];
  }

  /** No way to write a character is shorter than the canonical one. */
  lemma PieceShortest(p: Piece)
    requires PieceOk(p)
    ensures |Escaped(PieceMeaning(p))| <= |SpellPiece(p)|
  {
    match p {
      case Raw(b) => OneEscaped(b);
      case Short(c) => OneEscaped(ShortEscape(c));
      case Unit(d) => ScalarShort(Hex4Value(d));
      case Surrogates(h, l) => ScalarShort(0x10000 + (Hex4Value(h) - 0xD800) * 1024 + (Hex4Value(l) - 0xDC00));
    }
  }

  lemma ScalarShort(v: Scalar)
    ensures |Escaped(Encode(v))| <= 6
  {
    EncodedLength(v);
    if v < 0x80 { OneEscaped(v); } else { HighUnescaped(Encode(v)); }
  }

  /** So the canonical string is a shortest spelling of its value. */
  lemma {:induction false} StringShortest(ps: seq<Piece>)
    requires PiecesOk(ps)
    ensures |Quoted(StringMeaning(ps))| <= |SpellString(ps)|
  {
    PiecesShortest(ps);
  }

  lemma {:induction false} PiecesShortest(ps: seq<Piece>)
    requires PiecesOk(ps)
    ensures |Escaped(StringMeaning(ps))| <= |SpellPieces(ps)|
  {
    if ps != [] {
      PieceShortest(ps[0]);
      PiecesShortest(ps[1..]);
      EscapedTogether(PieceMeaning(ps[0]), StringMeaning(ps[1..]));
    }
  }

  /** And of the escapes that must have six characters the canonical one is in lower case. */
  lemma ControlsAreLower(c: Byte)
    requires |EscapeByte(c)| == 6
    ensures c < 0x20 && EscapeByte(c) == [BACKSLASH, LETTER_U] + FourDigits(c, [false, false, false, false])
  {
    HexDigitIsLower(0);
    HexDigitIsLower(c / 16);
    HexDigitIsLower(c % 16);
    LowerDigit(0);
    assert Nibbles(c) == (0, 0, c / 16, c % 16);
  }

  // The shape of canonical text.

  /** Texts with a comma between any two neighbours. */
  function Joined(parts: seq<bytes>): bytes
  {
    if parts == [] then []
    else if |parts| == 1 then parts[0]
    else Joined(parts[..|parts| - 1]) + [0x2C] + parts[|parts| - 1]
  }

  ghost function MemberTexts(j: Json, keys: seq<bytes>): (r: seq<bytes>)
    requires j.Object? && forall k | k in keys :: k in j.members
    ensures |r| == |keys| && forall i | 0 <= i < |keys| :: r[i] == Quoted(keys[i]) + [0x3A] + Print(j.members[keys[i]])
  {
    seq(|keys|, i requires 0 <= i < |keys| => Quoted(keys[i]) + [0x3A] + Print(j.members[keys[i]]))
  }

  ghost function ItemTexts(items: seq<Json>): (r: seq<bytes>)
    ensures |r| == |items| && forall i | 0 <= i < |items| :: r[i] == Print(items[i])
  {
    seq(|items|, i requires 0 <= i < |items| => Print(items[i]))
  }

  lemma {:induction false} MembersThenOne(j: Json, keys: seq<bytes>, k: bytes)
    requires j.Object? && k in j.members && forall x | x in keys :: x in j.members
    ensures forall x | x in keys + [k] :: x in j.members
    ensures PrintMembers(j, keys + [k]) == PrintMembers(j, keys) + [COMMA] + PrintMember(j, k)
    decreases |keys|
  {
    var more := keys + [k];
    if keys == [] {
      assert more[1..] == [] && PrintMembers(j, []) == [];
      assert PrintMembers(j, more) == [COMMA] + PrintMember(j, k) + [];
    } else {
      assert more[1..] == keys[1..] + [k];
      MembersThenOne(j, keys[1..], k);
      Associate([COMMA] + PrintMember(j, keys[0]), PrintMembers(j, keys[1..]), [COMMA]);
      Associate([COMMA] + PrintMember(j, keys[0]), PrintMembers(j, keys[1..]) + [COMMA], PrintMember(j, k));
    }
  }

  lemma KeysThenOne(j: Json, keys: seq<bytes>, k: bytes)
    requires j.Object? && k in j.members && keys != [] && forall x | x in keys :: x in j.members
    ensures forall x | x in keys + [k] :: x in j.members
    ensures PrintKeys(j, keys + [k]) == PrintKeys(j, keys) + [COMMA] + PrintMember(j, k)
  {
    var more := keys + [k];
    assert more[1..] == keys[1..] + [k];
    MembersThenOne(j, keys[1..], k);
    Associate(PrintMember(j, keys[0]), PrintMembers(j, keys[1..]), [COMMA]);
    Associate(PrintMember(j, keys[0]), PrintMembers(j, keys[1..]) + [COMMA], PrintMember(j, k));
  }

  lemma {:induction false} KeysJoined(j: Json, keys: seq<bytes>)
    requires j.Object? && forall k | k in keys :: k in j.members
    ensures PrintKeys(j, keys) == Joined(MemberTexts(j, keys))
    decreases |keys|
  {
    if |keys| == 1 {
      assert PrintMembers(j, keys[1..]) == [] && PrintMember(j, keys[0]) + [] == PrintMember(j, keys[0]);
    } else if |keys| > 1 {
      var n := |keys| - 1;
      assert keys == keys[..n] + [keys[n]];
      KeysJoined(j, keys[..n]);
      KeysThenOne(j, keys[..n], keys[n]);
      assert MemberTexts(j, keys)[..n] == MemberTexts(j, keys[..n]);
    }
  }

  lemma {:induction false} ItemsThenOne(items: seq<Json>, x: Json)
    ensures PrintItems(items + [x]) == PrintItems(items) + [COMMA] + Print(x)
    decreases |items|
  {
    var more := items + [x];
    if items == [] {
      assert more[1..] == [] && PrintItems([]) == [];
      assert PrintItems(more) == [COMMA] + Print(x) + [];
    } else {
      assert more[1..] == items[1..] + [x];
      ItemsThenOne(items[1..], x);
      Associate([COMMA] + Print(items[0]), PrintItems(items[1..]), [COMMA]);
      Associate([COMMA] + Print(items[0]), PrintItems(items[1..]) + [COMMA], Print(x));
    }
  }

  lemma {:induction false} ItemsJoined(items: seq<Json>)
    ensures PrintList(items) == Joined(ItemTexts(items))
    decreases |items|
  {
    if |items| == 1 {
      assert PrintItems(items[1..]) == [] && Print(items[0]) + [] == Print(items[0]);
    } else if |items| > 1 {
      var n := |items| - 1;
      ItemsJoined(items[..n]);
      assert items[1..] == items[..n][1..] + [items[n]];
      ItemsThenOne(items[..n][1..], items[n]);
      Associate(Print(items[0]), PrintItems(items[..n][1..]), [COMMA]);
      Associate(Print(items[0]), PrintItems(items[..n][1..]) + [COMMA], Print(items[n]));
      assert ItemTexts(items)[..n] == ItemTexts(items[..n]);
    }
  }

  /** Canonical text has no spaces, members in ascending order of their names, and commas and colons where they belong. */
  lemma PrintedShape(j: Json, keys: seq<bytes>)
    requires j.Object? ==> Ascending(keys) && forall k :: k in keys <==> k in j.members.Keys
    ensures j.Object? ==> Print(j) == Ascii("{") + Joined(MemberTexts(j, keys)) + Ascii("}")
    ensures j.Array? ==> Print(j) == Ascii("[") + Joined(ItemTexts(j.items)) + Ascii("]")
    ensures j.Null? ==> Print(j) == Ascii("null")
    ensures j.Bool? ==> Print(j) == Ascii(if j.flag then "true" else "false")
    ensures j.Number? ==> Print(j) == j.lexeme
    ensures j.Text? ==> Print(j) == Ascii("\"") + Escaped(j.text) + Ascii("\"")
  {
    BracketsAre();
    match j {
      case Object(m) =>
        InOrderUnique(keys, m.Keys);
        KeysJoined(j, keys);
      case Array(items) => ItemsJoined(items);
      case _ =>
    }
  }

  lemma BracketsAre()
    ensures Ascii("{") == [OPEN_BRACE] && Ascii("}") == [CLOSE_BRACE] && Ascii("[") == [OPEN_BRACKET] && Ascii("]") == [CLOSE_BRACKET]
    ensures Ascii("\"") == [QUOTE]
  {}
}
