/** Parsing and printing are inverse to each other. */
module JsonRoundTrip {
  import opened Bytes
  import opened Utf8
  import opened Wrappers
  import opened Json
  import opened JsonParser
  import opened JsonText
  import opened JsonExact
  import JsonDocuments
  import JsonSound

  /** The values the parser can return: UTF-8 strings, number lexemes, bounded nesting. */
  ghost predicate Printable(j: Json, n: int)
    decreases j
  {
    match j
    case Text(t) => Valid(t)
    case Number(l) => IsLexeme(l)
    case Array(items) => (items != [] ==> n >= 1) && forall x | x in items :: Printable(x, n - 1)
    case Object(m) => (m != map[] ==> n >= 1) && forall k | k in m :: Valid(k) && Printable(m[k], n - 1)
    case _ => true
  }

  // Text that is UTF-8 as a whole has UTF-8 strings in it.

  lemma {:induction false} DropAscii(a: bytes, rest: bytes)
    requires forall i | 0 <= i < |a| :: a[i] < 0x80
    requires Valid(a + rest)
    ensures Valid(rest)
  {
    if a == [] {
      assert a + rest == rest;
    } else {
      assert a + rest == [] + [a[0]] + (a[1..] + rest);
      SplitAtAscii([], a[0], a[1..] + rest);
      DropAscii(a[1..], rest);
    }
  }

  lemma {:induction false} ReplaceAscii(acc: bytes, escape: bytes, meaning: bytes, rest: bytes)
    requires escape != [] && forall i | 0 <= i < |escape| :: escape[i] < 0x80
    requires Valid(acc + escape + rest) && Valid(meaning)
    ensures Valid(acc + meaning + rest)
  {
    assert acc + escape + rest == acc + [escape[0]] + (escape[1..] + rest);
    SplitAtAscii(acc, escape[0], escape[1..] + rest);
    DropAscii(escape[1..], rest);
    ValidConcat(acc, meaning);
    ValidConcat(acc + meaning, rest);
  }

  lemma ScalarValid(v: Scalar)
    ensures Valid(Encode(v))
  {
    EncodeWellFormed(v);
    var c := Encode(v);
    assert c[..|c|] == c && c[|c|..] == [];
  }

  lemma EscapeMeaning(p: Piece)
    requires PieceOk(p) && !p.Raw?
    ensures Valid(PieceMeaning(p))
  {
    match p {
      case Short(c) => ValidAscii(PieceMeaning(p));
      case Unit(d) => ScalarValid(Hex4Value(d));
      case Surrogates(h, l) => ScalarValid(0x10000 + (Hex4Value(h) - 0xD800) * 1024 + (Hex4Value(l) - 0xDC00));
    }
  }

  lemma EscapeSpelling(p: Piece)
    requires PieceOk(p) && !p.Raw?
    ensures forall i | 0 <= i < |SpellPiece(p)| :: SpellPiece(p)[i] < 0x80
  {
    match p {
      case Short(c) =>
      case Unit(d) => HexAscii(d);
      case Surrogates(h, l) => HexAscii(h); HexAscii(l);
    }
  }

  lemma HexAscii(d: bytes)
    requires FourHex(d)
    ensures forall i | 0 <= i < |d| :: d[i] < 0x80
  {}

  lemma PieceText(acc: bytes, p: Piece, rest: bytes)
    requires PieceOk(p) && Valid(acc + SpellPiece(p) + rest)
    ensures Valid(acc + PieceMeaning(p) + rest)
  {
    if !p.Raw? {
      EscapeSpelling(p);
      EscapeMeaning(p);
      ReplaceAscii(acc, SpellPiece(p), PieceMeaning(p), rest);
    }
  }

  lemma Regroup(a: bytes, b: bytes, c: bytes, d: bytes)
    ensures a + (b + c) + d == a + b + (c + d) == a + b + c + d
  {}

  lemma {:induction false} PiecesText(acc: bytes, ps: seq<Piece>, rest: bytes)
    requires PiecesOk(ps) && Valid(acc + SpellPieces(ps) + rest)
    ensures Valid(acc + StringMeaning(ps) + rest)
    decreases |ps|
  {
    if ps != [] {
      var p, others := ps[0], ps[1..];
      Regroup(acc, SpellPiece(p), SpellPieces(others), rest);
      PieceText(acc, p, SpellPieces(others) + rest);
      Associate(acc + PieceMeaning(p), SpellPieces(others), rest);
      PiecesText(acc + PieceMeaning(p), others, rest);
      Regroup(acc, PieceMeaning(p), StringMeaning(others), rest);
    }
  }

  lemma StringText(ps: seq<Piece>, rest: bytes)
    requires PiecesOk(ps) && Valid(SpellString(ps) + rest)
    ensures Valid(StringMeaning(ps)) && Valid(rest)
  {
    StringSpelling(ps, rest);
    assert [] + SpellPieces(ps) == SpellPieces(ps);
    DropAscii([QUOTE], [] + SpellPieces(ps) + ([QUOTE] + rest));
    PiecesText([], ps, [QUOTE] + rest);
    EndOfString(StringMeaning(ps), rest);
  }

  lemma EndOfString(s: bytes, rest: bytes)
    requires Valid([] + s + ([QUOTE] + rest))
    ensures Valid(s) && Valid(rest)
  {
    assert [] + s + ([QUOTE] + rest) == s + [QUOTE] + rest;
    SplitAtAscii(s, QUOTE, rest);
  }

  lemma LeafAscii(t: Tree)
    requires TreeOk(t) && !t.ArrayOf? && !t.ObjectOf? && !t.StringWord?
    ensures forall i | 0 <= i < |Spell(t)| :: Spell(t)[i] < 0x80
  {
    match t {
      case NumberWord(number) => NumberAscii(number);
      case EmptyArray(space) => SpacesAscii(space);
      case EmptyObject(space) => SpacesAscii(space);
      case NullWord | TrueWord | FalseWord =>
    }
  }

  lemma LeafText(t: Tree, rest: bytes, n: int)
    requires TreeOk(t) && !t.ArrayOf? && !t.ObjectOf? && Valid(Spell(t) + rest)
    ensures Valid(rest) && Printable(Meaning(t), n)
  {
    if t.StringWord? {
      StringText(t.pieces, rest);
    } else {
      LeafAscii(t);
      DropAscii(Spell(t), rest);
    }
  }

  lemma Unwrap(open: Byte, body: bytes, close: Byte, rest: bytes)
    requires open < 0x80 && Valid([open] + body + [close] + rest)
    ensures Valid(body + ([close] + rest))
  {
    Associate([open] + body, [close], rest);
    Associate([open], body, [close] + rest);
    DropAscii([open], body + ([close] + rest));
  }

  lemma NumberAscii(n: NumberText)
    requires NumberOk(n)
    ensures forall i | 0 <= i < |SpellNumber(n)| :: SpellNumber(n)[i] < 0x80
  {
    assert forall i | 0 <= i < |n.integer| :: IsDigit(n.integer[i]);
    assert forall i | 0 <= i < |n.fraction| :: IsDigit(n.fraction[i]);
    if n.exponent.Exponent? {
      assert forall i | 0 <= i < |n.exponent.digits| :: IsDigit(n.exponent.digits[i]);
    }
    var a := (if n.minus then [MINUS] else []) + n.integer;
    var b := if n.fraction == [] then [] else [0x2E] + n.fraction;
    assert forall i | 0 <= i < |a| :: a[i] < 0x80;
    assert forall i | 0 <= i < |b| :: b[i] < 0x80;
    assert forall i | 0 <= i < |SpellExponent(n.exponent)| :: SpellExponent(n.exponent)[i] < 0x80;
  }

  lemma {:induction false} TreeText(t: Tree, rest: bytes, n: int)
    requires TreeOk(t) && Within(t, n) && Valid(Spell(t) + rest)
    ensures Valid(rest) && Printable(Meaning(t), n)
    decreases t, 1
  {
    match t {
      case ArrayOf(items) =>
        Unwrap(OPEN_BRACKET, SpellItems(items), CLOSE_BRACKET, rest);
        ItemsText(items, [CLOSE_BRACKET] + rest, n - 1);
        DropAscii([CLOSE_BRACKET], rest);
      case ObjectOf(members) =>
        Unwrap(OPEN_BRACE, SpellMembers(members), CLOSE_BRACE, rest);
        MembersText(members, [CLOSE_BRACE] + rest, n - 1);
        DropAscii([CLOSE_BRACE], rest);
      case _ => LeafText(t, rest, n);
    }
  }

  lemma {:induction false} SpacedText(v: Spaced, rest: bytes, n: int)
    requires Spaces(v.before) && TreeOk(v.tree) && Spaces(v.after) && Within(v.tree, n)
    requires Valid(v.before + Spell(v.tree) + v.after + rest)
    ensures Valid(rest) && Printable(Meaning(v.tree), n)
    decreases v, 2
  {
    SpacesAscii(v.before);
    SpacesAscii(v.after);
    JsonDocuments.Join4(v.before, Spell(v.tree), v.after, rest);
    DropAscii(v.before, Spell(v.tree) + (v.after + rest));
    TreeText(v.tree, v.after + rest, n);
    DropAscii(v.after, rest);
  }

  lemma SpacesAscii(s: bytes)
    requires Spaces(s)
    ensures forall i | 0 <= i < |s| :: s[i] < 0x80
  {
    forall i | 0 <= i < |s| ensures s[i] < 0x80 { assert IsSpace(s[i]); }
  }

  lemma {:induction false} ItemsText(items: Items, rest: bytes, n: int)
    requires ItemsOk(items) && ItemsWithin(items, n) && Valid(SpellItems(items) + rest)
    ensures Valid(rest) && forall x | x in ItemsMeaning(items) :: Printable(x, n)
    decreases items, 3
  {
    match items {
      case LastItem(v) => SpacedText(v, rest, n);
      case MoreItems(v, others) =>
        var tail := SpellItems(others) + rest;
        JsonDocuments.Separate(v.before + Spell(v.tree) + v.after, SpellItems(others), rest);
        SpacedText(v, [COMMA] + tail, n);
        DropAscii([COMMA], tail);
        ItemsText(others, rest, n);
    }
  }

  lemma KeyText(m: MemberText, rest: bytes)
    requires KeyOk(m) && Valid(SpellKey(m) + rest)
    ensures Valid(StringMeaning(m.key)) && Valid(rest)
  {
    var after := m.between + ([COLON] + rest);
    Join(m.before, SpellString(m.key), m.between, [COLON], rest);
    SpacesAscii(m.before);
    SpacesAscii(m.between);
    DropAscii(m.before, SpellString(m.key) + after);
    StringText(m.key, after);
    DropAscii(m.between, [COLON] + rest);
    DropAscii([COLON], rest);
  }

  lemma {:induction false} MemberRest(m: MemberText, rest: bytes, n: int)
    requires KeyOk(m) && TreeOk(m.value.tree) && Within(m.value.tree, n)
    requires Valid(SpellKey(m) + m.value.before + Spell(m.value.tree) + m.value.after + rest)
    ensures Valid(rest) && Valid(StringMeaning(m.key)) && Printable(Meaning(m.value.tree), n)
    decreases m, 3
  {
    JsonDocuments.MemberSpelling(m, rest);
    KeyText(m, m.value.before + Spell(m.value.tree) + m.value.after + rest);
    SpacedText(m.value, rest, n);
  }

  lemma {:induction false} MembersText(members: Members, rest: bytes, n: int)
    requires MembersOk(members) && MembersWithin(members, n) && Valid(SpellMembers(members) + rest)
    ensures Valid(rest)
    ensures forall k | k in MembersMeaning(members) :: Valid(k) && Printable(MembersMeaning(members)[k], n)
    decreases members, 4
  {
    var m := members.member;
    match members {
      case LastMember(_) => MemberRest(m, rest, n);
      case MoreMembers(_, others) =>
        var tail := SpellMembers(others) + rest;
        JsonDocuments.Separate(SpellKey(m) + m.value.before + Spell(m.value.tree) + m.value.after, SpellMembers(others), rest);
        MemberRest(m, [COMMA] + tail, n);
        DropAscii([COMMA], tail);
        MembersText(others, rest, n);
    }
  }

  // The canonical text as a grammatical text.

  lemma CanonicalPiece(c: Byte) returns (p: Piece)
    ensures PieceOk(p) && SpellPiece(p) == EscapeByte(c) && PieceMeaning(p) == [c]
  {
    var e := EscapeByte(c);
    if c == QUOTE || c == BACKSLASH || c == 0x08 || c == 0x0C || c == 0x0A || c == 0x0D || c == 0x09 {
      p := Short(e[1]);
    } else if c < 0x20 {
      var d := [ZERO, ZERO, HexDigit(Quotient(c, 16)), HexDigit(Remainder(c, 16))];
      assert Quotient(c, 16) * 16 + Remainder(c, 16) == c;
      assert HexValue(d[2]) == Quotient(c, 16) && HexValue(d[3]) == Remainder(c, 16);
      p := Unit(d);
    } else {
      p := Raw(c);
    }
  }

  lemma {:induction false} CanonicalPieces(s: bytes) returns (ps: seq<Piece>)
    ensures PiecesOk(ps) && SpellPieces(ps) == Escaped(s) && StringMeaning(ps) == s
  {
    if s == [] {
      ps := [];
    } else {
      var p := CanonicalPiece(s[0]);
      var more := CanonicalPieces(s[1..]);
      ps := [p] + more;
      assert ps[1..] == more;
    }
  }

  lemma {:induction false} CanonicalTree(j: Json, n: int) returns (t: Tree)
    requires Printable(j, n)
    ensures TreeOk(t) && Within(t, n) && Spell(t) == Print(j) && Meaning(t) == j
    decreases j, 3
  {
    match j {
      case Null => t := NullWord;
      case Bool(b) => t := if b then TrueWord else FalseWord;
      case Text(s) =>
        var ps := CanonicalPieces(s);
        t := StringWord(ps);
      case Number(l) =>
        var number :| NumberOk(number) && SpellNumber(number) == l;
        t := NumberWord(number);
      case Array(items) =>
        if items == [] {
          t := EmptyArray([]);
        } else {
          var r := CanonicalItems(items, n - 1);
          t := ArrayOf(r);
        }
      case Object(m) =>
        t := CanonicalObject(j, n);
    }
  }

  lemma {:induction false} CanonicalObject(j: Json, n: int) returns (t: Tree)
    requires j.Object? && Printable(j, n)
    ensures TreeOk(t) && Within(t, n) && Spell(t) == Print(j) && Meaning(t) == j
    decreases j, 2
  {
    var m, keys := j.members, InOrder(j.members.Keys);
    if keys == [] {
      assert m.Keys == {} by { assert forall k :: k in m.Keys ==> k in keys; }
      t := EmptyObject([]);
      assert m == map[];
    } else {
      assert keys[0] in m;
      var r := CanonicalMembers(j, keys, n - 1);
      t := ObjectOf(r);
      assert Picked(m, keys) == m;
    }
  }

  lemma {:induction false} CanonicalItems(items: seq<Json>, n: int) returns (r: Items)
    requires items != [] && forall x | x in items :: Printable(x, n)
    ensures ItemsOk(r) && ItemsWithin(r, n) && SpellItems(r) == PrintList(items) && ItemsMeaning(r) == items
    decreases items, 0
  {
    var t := CanonicalTree(items[0], n);
    if |items| == 1 {
      r := LastItem(Spaced([], t, []));
      OneItem(items, t);
    } else {
      var more := CanonicalItems(items[1..], n);
      r := MoreItems(Spaced([], t, []), more);
      FirstOfItems(items, t, more);
    }
  }

  lemma OneItem(items: seq<Json>, t: Tree)
    requires |items| == 1 && TreeOk(t) && Spell(t) == Print(items[0]) && Meaning(t) == items[0]
    ensures SpellItems(LastItem(Spaced([], t, []))) == PrintList(items) && ItemsMeaning(LastItem(Spaced([], t, []))) == items
  {
    Unspaced(t);
    assert items[1..] == [];
  }

  lemma FirstOfItems(items: seq<Json>, t: Tree, more: Items)
    requires |items| > 1 && TreeOk(t) && Spell(t) == Print(items[0]) && Meaning(t) == items[0]
    requires ItemsOk(more) && SpellItems(more) == PrintList(items[1..]) && ItemsMeaning(more) == items[1..]
    ensures SpellItems(MoreItems(Spaced([], t, []), more)) == PrintList(items)
    ensures ItemsMeaning(MoreItems(Spaced([], t, []), more)) == items
  {
    Unspaced(t);
    assert items == [items[0]] + items[1..];
    CommaFirst(items[1..]);
    Associate(Print(items[0]), [COMMA], PrintList(items[1..]));
  }

  lemma CommaFirst(items: seq<Json>)
    requires items != []
    ensures PrintItems(items) == [COMMA] + PrintList(items)
  {
    Associate([COMMA], Print(items[0]), PrintItems(items[1..]));
  }

  lemma Unspaced(t: Tree)
    ensures [] + Spell(t) + [] == Spell(t)
  {}

  lemma {:induction false} CanonicalMember(j: Json, key: bytes, n: int) returns (m: MemberText)
    requires j.Object? && key in j.members && Printable(j.members[key], n)
    ensures KeyOk(m) && TreeOk(m.value.tree) && Within(m.value.tree, n)
    ensures StringMeaning(m.key) == key && Meaning(m.value.tree) == j.members[key]
    ensures SpellKey(m) + m.value.before + Spell(m.value.tree) + m.value.after == PrintMember(j, key)
    decreases j, 0
  {
    var ps := CanonicalPieces(key);
    var t := CanonicalTree(j.members[key], n);
    m := MemberText([], ps, [], Spaced([], t, []));
    MemberSpelled(j, key, m);
  }

  lemma MemberSpelled(j: Json, key: bytes, m: MemberText)
    requires j.Object? && key in j.members && Spell(m.value.tree) == Print(j.members[key]) && SpellString(m.key) == Quoted(key)
    requires m.before == [] && m.between == [] && m.value.before == [] && m.value.after == []
    ensures SpellKey(m) + m.value.before + Spell(m.value.tree) + m.value.after == PrintMember(j, key)
  {
    assert [] + SpellString(m.key) + [] + [COLON] == Quoted(key) + [COLON];
    assert SpellKey(m) + [] + Spell(m.value.tree) + [] == SpellKey(m) + Spell(m.value.tree);
  }

  /** The members of an object with the given keys. */
  ghost function Picked(members: map<bytes, Json>, keys: seq<bytes>): map<bytes, Json>
    requires forall k | k in keys :: k in members
  {
    map k | k in keys :: members[k]
  }

  lemma PickFirst(members: map<bytes, Json>, keys: seq<bytes>)
    requires keys != [] && forall k | k in keys :: k in members
    ensures Picked(members, keys) == Picked(members, keys[1..])[keys[0] := members[keys[0]]]
  {
    assert keys == [keys[0]] + keys[1..];
  }

  lemma LaterKeys(keys: seq<bytes>)
    requires keys != [] && Ascending(keys)
    ensures Ascending(keys[1..]) && keys[0] !in keys[1..]
  {
    forall a, b | 0 <= a < b < |keys[1..]| ensures Less(keys[1..][a], keys[1..][b]) {
      assert keys[1..][a] == keys[a + 1] && keys[1..][b] == keys[b + 1];
    }
    FirstNotLater(keys);
  }

  lemma {:induction false} CanonicalMembers(j: Json, keys: seq<bytes>, n: int) returns (r: Members)
    requires j.Object? && keys != [] && Ascending(keys)
    requires forall k | k in keys :: k in j.members && Printable(j.members[k], n)
    ensures MembersOk(r) && MembersWithin(r, n) && SpellMembers(r) == PrintKeys(j, keys)
    ensures MembersMeaning(r) == Picked(j.members, keys)
    decreases j, 1, |keys|
  {
    var m := CanonicalMember(j, keys[0], n);
    PickFirst(j.members, keys);
    if |keys| == 1 {
      r := LastMember(m);
      assert keys[1..] == [];
      assert Picked(j.members, []) == map[];
    } else {
      LaterKeys(keys);
      var more := CanonicalMembers(j, keys[1..], n);
      r := MoreMembers(m, more);
      MorePrinted(j, keys);
    }
  }

  lemma MorePrinted(j: Json, keys: seq<bytes>)
    requires j.Object? && |keys| > 1 && forall k | k in keys :: k in j.members
    ensures PrintKeys(j, keys) == PrintMember(j, keys[0]) + [COMMA] + PrintKeys(j, keys[1..])
  {
    Associate([COMMA], PrintMember(j, keys[1]), PrintMembers(j, keys[1..][1..]));
    Associate(PrintMember(j, keys[0]), [COMMA], PrintKeys(j, keys[1..]));
  }

  lemma FirstNotLater(keys: seq<bytes>)
    requires keys != [] && Ascending(keys)
    ensures keys[0] !in keys[1..]
  {
    LessIrreflexive(keys[0]);
    forall i | 0 <= i < |keys[1..]| ensures keys[1..][i] != keys[0] {
      assert Less(keys[0], keys[i + 1]);
    }
  }

  // The theorems.

  ghost predicate DocumentOk(d: Spaced) {
    Spaces(d.before) && TreeOk(d.tree) && Spaces(d.after) && Within(d.tree, MAXIMUM_DEPTH)
  }

  function SpellDocument(d: Spaced): bytes { d.before + Spell(d.tree) + d.after }

  lemma DocumentParses(d: Spaced)
    requires DocumentOk(d) && Valid(SpellDocument(d))
    ensures Parse(SpellDocument(d)) == Ok(Meaning(d.tree))
  {
    var text := SpellDocument(d);
    JsonDocuments.FirstByte(d.tree);
    Associate(d.before, Spell(d.tree), d.after);
    SkipSpaces(d.before, Spell(d.tree) + d.after);
    assert (Spell(d.tree) + d.after)[0] == Spell(d.tree)[0];
    if d.after != [] { assert IsSpace(d.after[0]); }
    JsonDocuments.TreeComplete(d.tree, d.after, 0);
    assert d.after + [] == d.after;
    SkipSpaces(d.after, []);
  }

  lemma ParsedIsDocument(text: bytes) returns (d: Spaced)
    requires Parse(text).Ok?
    ensures Valid(text) && DocumentOk(d) && SpellDocument(d) == text && Parse(text) == Ok(Meaning(d.tree))
  {
    JsonSound.SkipFirst(text, 0);
    var before, t := JsonSound.TreeSound(text, 0);
    var after := SpacesSkipped(ParseValue(text, 0).rest);
    assert after + [] == after;
    d := Spaced(before, t, after);
  }

  /** The parser accepts exactly the UTF-8 texts of the grammar within the depth limit, as what they mean. */
  lemma ParsesExactly(text: bytes, j: Json)
    ensures Parse(text) == Ok(j) <==>
            Valid(text) && exists d :: DocumentOk(d) && SpellDocument(d) == text && Meaning(d.tree) == j
  {
    if Parse(text) == Ok(j) {
      var d := ParsedIsDocument(text);
      assert Meaning(d.tree) == j;
    }
    if Valid(text) && exists d :: DocumentOk(d) && SpellDocument(d) == text && Meaning(d.tree) == j {
      var d :| DocumentOk(d) && SpellDocument(d) == text && Meaning(d.tree) == j;
      DocumentParses(d);
    }
  }

  /** Every value the parser returns has UTF-8 strings, number lexemes and bounded nesting. */
  lemma ParsedIsPrintable(text: bytes)
    requires Parse(text).Ok?
    ensures Printable(Parse(text).value, MAXIMUM_DEPTH)
  {
    var d := ParsedIsDocument(text);
    assert text + [] == text;
    SpacedText(d, [], MAXIMUM_DEPTH);
  }

  lemma {:induction false} EscapedHigh(c: bytes, s: bytes)
    requires forall i | 0 <= i < |c| :: c[i] >= 0x80
    ensures Escaped(c + s) == c + Escaped(s)
  {
    if c == [] {
      assert c + s == s && c + Escaped(s) == Escaped(s);
    } else {
      assert (c + s)[1..] == c[1..] + s;
      EscapedHigh(c[1..], s);
      assert EscapeByte(c[0]) == [c[0]];
      assert c == [c[0]] + c[1..];
      Associate([c[0]], c[1..], Escaped(s));
    }
  }

  lemma {:induction false} EscapedValid(s: bytes)
    requires Valid(s)
    ensures Valid(Escaped(s))
    decreases |s|
  {
    if s != [] {
      var n := Announced(s[0]);
      EscapedValid(s[n..]);
      assert s == s[..n] + s[n..];
      if n == 1 {
        EscapeAscii(s[0]);
        ValidAscii(EscapeByte(s[0]));
        ValidConcat(EscapeByte(s[0]), Escaped(s[1..]));
      } else {
        assert forall i | 1 <= i < n :: IsContinuation(s[..n][i]);
        EscapedHigh(s[..n], s[n..]);
        assert s[..n][..n] == s[..n] && s[..n][n..] == [];
        ValidConcat(s[..n], Escaped(s[n..]));
      }
    }
  }

  lemma EscapeAscii(c: Byte)
    requires c < 0x80
    ensures forall i | 0 <= i < |EscapeByte(c)| :: EscapeByte(c)[i] < 0x80
  {}

  lemma QuotedValid(s: bytes)
    requires Valid(s)
    ensures Valid(Quoted(s))
  {
    EscapedValid(s);
    ValidAscii([QUOTE]);
    ValidConcat([QUOTE], Escaped(s));
    ValidConcat([QUOTE] + Escaped(s), [QUOTE]);
  }

  lemma {:induction false} PrintValid(j: Json, n: int)
    requires Printable(j, n)
    ensures Valid(Print(j))
    decreases j, 1
  {
    match j {
      case Null => ValidAscii(Print(j));
      case Bool(b) => ValidAscii(Print(j));
      case Text(t) => QuotedValid(t);
      case Number(l) =>
        var number :| NumberOk(number) && SpellNumber(number) == l;
        NumberAscii(number);
        ValidAscii(l);
      case Array(items) =>
        ListValid(items, n - 1);
        WrapValid(OPEN_BRACKET, PrintList(items), CLOSE_BRACKET);
      case Object(m) =>
        KeysValid(j, InOrder(m.Keys), n - 1);
        WrapValid(OPEN_BRACE, PrintKeys(j, InOrder(m.Keys)), CLOSE_BRACE);
    }
  }

  lemma WrapValid(open: Byte, body: bytes, close: Byte)
    requires open < 0x80 && close < 0x80 && Valid(body)
    ensures Valid([open] + body + [close])
  {
    ValidAscii([open]);
    ValidAscii([close]);
    ValidConcat([open], body);
    ValidConcat([open] + body, [close]);
  }

  lemma {:induction false} ListValid(items: seq<Json>, n: int)
    requires forall x | x in items :: Printable(x, n)
    ensures Valid(PrintList(items)) && Valid(PrintItems(items))
    decreases items, 0
  {
    if items != [] {
      PrintValid(items[0], n);
      ListValid(items[1..], n);
      ValidAscii([COMMA]);
      ValidConcat(Print(items[0]), PrintItems(items[1..]));
      ValidConcat([COMMA], Print(items[0]));
      ValidConcat([COMMA] + Print(items[0]), PrintItems(items[1..]));
    }
  }

  lemma {:induction false} KeysValid(j: Json, keys: seq<bytes>, n: int)
    requires j.Object? && forall k | k in keys :: k in j.members && Valid(k) && Printable(j.members[k], n)
    ensures Valid(PrintKeys(j, keys)) && Valid(PrintMembers(j, keys))
    decreases j, 0, |keys|
  {
    if keys != [] {
      var k := keys[0];
      QuotedValid(k);
      PrintValid(j.members[k], n);
      ValidAscii([COLON]);
      ValidAscii([COMMA]);
      ValidConcat(Quoted(k), [COLON]);
      ValidConcat(Quoted(k) + [COLON], Print(j.members[k]));
      KeysValid(j, keys[1..], n);
      ValidConcat(PrintMember(j, k), PrintMembers(j, keys[1..]));
      ValidConcat([COMMA], PrintMember(j, k));
      ValidConcat([COMMA] + PrintMember(j, k), PrintMembers(j, keys[1..]));
    }
  }

  /** Parsing the canonical text of a value gives the value back. */
  lemma ParsePrint(j: Json)
    requires Printable(j, MAXIMUM_DEPTH)
    ensures Parse(Print(j)) == Ok(j)
  {
    var t := CanonicalTree(j, MAXIMUM_DEPTH);
    PrintValid(j, MAXIMUM_DEPTH);
    var d := Spaced([], t, []);
    Unspaced(t);
    DocumentParses(d);
  }

  /** Normalisation is idempotent, and two texts get the same bytes exactly when they parse to the same value. */
  lemma CanonicalText(a: bytes, b: bytes)
    requires Parse(a).Ok? && Parse(b).Ok?
    ensures Parse(Print(Parse(a).value)) == Parse(a)
    ensures Print(Parse(a).value) == Print(Parse(b).value) <==> Parse(a) == Parse(b)
  {
    ParsedIsPrintable(a);
    ParsedIsPrintable(b);
    ParsePrint(Parse(a).value);
    ParsePrint(Parse(b).value);
  }

  /** Spaces, member order and escape spelling do not matter: documents that mean the same get the same bytes. */
  lemma SameMeaningSameBytes(a: Spaced, b: Spaced)
    requires DocumentOk(a) && Valid(SpellDocument(a)) && DocumentOk(b) && Valid(SpellDocument(b))
    ensures Parse(SpellDocument(a)).Ok? && Parse(SpellDocument(b)).Ok?
    ensures Print(Parse(SpellDocument(a)).value) == Print(Parse(SpellDocument(b)).value)
       <==> Meaning(a.tree) == Meaning(b.tree)
  {
    DocumentParses(a);
    DocumentParses(b);
    CanonicalText(SpellDocument(a), SpellDocument(b));
  }
}
