/** JSON values and their canonical text. */
module Json {
  import opened Bytes

  /** A value: numbers keep their lexeme, objects are maps as in std::map. */
  datatype Json =
    | Null
    | Bool(flag: bool)
    | Text(text: bytes)
    | Number(lexeme: bytes)
    | Array(items: seq<Json>)
    | Object(members: map<bytes, Json>)

  const QUOTE: Byte := 0x22
  const BACKSLASH: Byte := 0x5C
  const COMMA: Byte := 0x2C
  const COLON: Byte := 0x3A
  const OPEN_BRACKET: Byte := 0x5B
  const CLOSE_BRACKET: Byte := 0x5D
  const OPEN_BRACE: Byte := 0x7B
  const CLOSE_BRACE: Byte := 0x7D
  const MINUS: Byte := 0x2D
  const ZERO: Byte := 0x30
  const LETTER_U: Byte := 0x75

  const MAXIMUM_DEPTH := 64

  // The characters of the grammar.

  predicate IsSpace(c: Byte) { c == 0x20 || c == 0x09 || c == 0x0D || c == 0x0A }

  function HexValue(c: Byte): int {
    if 0x30 <= c <= 0x39 then c - 0x30
    else if 0x61 <= c <= 0x66 then 10 + (c - 0x61)
    else if 0x41 <= c <= 0x46 then 10 + (c - 0x41)
    else -1
  }

  predicate IsHex4(s: bytes) {
    |s| >= 4 && HexValue(s[0]) >= 0 && HexValue(s[1]) >= 0 && HexValue(s[2]) >= 0 && HexValue(s[3]) >= 0
  }

  function Hex4Value(s: bytes): (v: nat)
    requires IsHex4(s)
    ensures v < 0x10000
  {
    HexValue(s[0]) * 4096 + HexValue(s[1]) * 256 + HexValue(s[2]) * 16 + HexValue(s[3])
  }

  /** What a two-character escape stands for; -1 when the letter is not one of them. */
  function ShortEscape(c: Byte): int {
    if c == QUOTE then QUOTE
    else if c == BACKSLASH then BACKSLASH
    else if c == 0x2F then 0x2F
    else if c == 0x62 then 0x08
    else if c == 0x66 then 0x0C
    else if c == 0x6E then 0x0A
    else if c == 0x72 then 0x0D
    else if c == 0x74 then 0x09
    else -1
  }

  // Canonical text.

  function Quotient(c: Byte, d: nat): (r: nat)
    requires d > 0
    ensures r * d <= c < (r + 1) * d
  {
    c / d
  }

  function Remainder(c: Byte, d: nat): (r: nat)
    requires d > 0
    ensures r < d
  {
    c % d
  }

  /** How one byte of a string is spelled canonically. */
  function EscapeByte(c: Byte): (r: bytes)
    ensures r != []
  {
    if c == QUOTE then [BACKSLASH, QUOTE]
    else if c == BACKSLASH then [BACKSLASH, BACKSLASH]
    else if c == 0x08 then [BACKSLASH, 0x62]
    else if c == 0x0C then [BACKSLASH, 0x66]
    else if c == 0x0A then [BACKSLASH, 0x6E]
    else if c == 0x0D then [BACKSLASH, 0x72]
    else if c == 0x09 then [BACKSLASH, 0x74]
    else if c < 0x20 then [BACKSLASH, LETTER_U, ZERO, ZERO, HexDigit(Quotient(c, 16)), HexDigit(Remainder(c, 16))]
    else [c]
  }

  function Escaped(s: bytes): bytes {
    if s == [] then [] else EscapeByte(s[0]) + Escaped(s[1..])
  }

  function Quoted(s: bytes): bytes {
    [QUOTE] + Escaped(s) + [QUOTE]
  }

  /** The canonical text of a value: no spaces, object members in key order. */
  ghost function Print(j: Json): bytes
    decreases j, 3
  {
    match j
    case Null => Ascii("null")
    case Bool(b) => if b then Ascii("true") else Ascii("false")
    case Text(t) => Quoted(t)
    case Number(l) => l
    case Array(items) =>
      [OPEN_BRACKET] + PrintList(items) + [CLOSE_BRACKET]
    case Object(members) =>
      [OPEN_BRACE] + PrintKeys(j, InOrder(members.Keys)) + [CLOSE_BRACE]
  }

  ghost function PrintList(items: seq<Json>): bytes {
    if items == [] then [] else Print(items[0]) + PrintItems(items[1..])
  }

  /** Items after the first, each led by its comma. */
  ghost function PrintItems(items: seq<Json>): bytes {
    if items == [] then [] else [COMMA] + Print(items[0]) + PrintItems(items[1..])
  }

  /** The members with the given keys, separated by commas. */
  ghost function PrintKeys(j: Json, keys: seq<bytes>): bytes
    requires j.Object? && forall k | k in keys :: k in j.members
    decreases j, 2, |keys| + 1
  {
    if keys == [] then [] else PrintMember(j, keys[0]) + PrintMembers(j, keys[1..])
  }

  ghost function PrintMember(j: Json, key: bytes): bytes
    requires j.Object? && key in j.members
    decreases j, 1
  {
    Quoted(key) + [COLON] + Print(j.members[key])
  }

  ghost function PrintMembers(j: Json, keys: seq<bytes>): bytes
    requires j.Object? && forall k | k in keys :: k in j.members
    decreases j, 2, |keys|
  {
    if keys == [] then [] else [COMMA] + PrintMember(j, keys[0]) + PrintMembers(j, keys[1..])
  }

  /** The switch of append_json_string. */
  method AppendEscaped(out: bytes, c: Byte) returns (r: bytes)
    ensures r == out + EscapeByte(c)
  {
    if c == QUOTE { r := out + [BACKSLASH, QUOTE]; }
    else if c == BACKSLASH { r := out + [BACKSLASH, BACKSLASH]; }
    else if c == 0x08 { r := out + [BACKSLASH, 0x62]; }
    else if c == 0x0C { r := out + [BACKSLASH, 0x66]; }
    else if c == 0x0A { r := out + [BACKSLASH, 0x6E]; }
    else if c == 0x0D { r := out + [BACKSLASH, 0x72]; }
    else if c == 0x09 { r := out + [BACKSLASH, 0x74]; }
    else if c < 0x20 {
      r := out + [BACKSLASH, LETTER_U, ZERO, ZERO];
      r := r + [HexDigit(Quotient(c, 16))];
      r := r + [HexDigit(Remainder(c, 16))];
    } else { r := out + [c]; }
  }

  lemma Associate(a: bytes, b: bytes, c: bytes)
    ensures a + b + c == a + (b + c)
  {}

  /** append_json_string */
  method AppendJsonString(out: bytes, value: bytes) returns (r: bytes)
    ensures r == out + Quoted(value)
  {
    r := out + [QUOTE];
    ghost var done := [];
    var index := 0;
    while index < |value|
      invariant 0 <= index <= |value|
      invariant r == out + [QUOTE] + done
      invariant done + Escaped(value[index..]) == Escaped(value)
    {
      var c := value[index];
      assert value[index..][1..] == value[index + 1..];
      r := AppendEscaped(r, c);
      Associate(done, EscapeByte(c), Escaped(value[index + 1..]));
      Associate(out + [QUOTE], done, EscapeByte(c));
      done := done + EscapeByte(c);
      index := index + 1;
    }
    assert value[index..] == [];
    assert done == Escaped(value);
    r := r + [QUOTE];
    Associate(out, [QUOTE], done);
    Associate(out, [QUOTE] + done, [QUOTE]);
  }

  /** canonical_json: appends to an output buffer. */
  method CanonicalJson(value: Json, out: bytes) returns (r: bytes)
    ensures r == out + Print(value)
    decreases value, 3
  {
    match value {
      case Null => r := out + Ascii("null");
      case Bool(b) => r := out + (if b then Ascii("true") else Ascii("false"));
      case Text(t) => r := AppendJsonString(out, t);
      case Number(l) => r := out + l;
      case Array(items) =>
        r := AppendList(items, out + [OPEN_BRACKET]);
        r := r + [CLOSE_BRACKET];
        Associate(out, [OPEN_BRACKET], PrintList(items));
        Associate(out, [OPEN_BRACKET] + PrintList(items), [CLOSE_BRACKET]);
      case Object(_) => r := AppendMembers(value, out);
    }
  }

  lemma {:induction false} NextItem(items: seq<Json>, i: nat, done: bytes)
    requires i < |items|
    requires if i == 0 then done == [] else done + PrintItems(items[i..]) == PrintList(items)
    ensures done + (if i == 0 then [] else [COMMA]) + Print(items[i]) + PrintItems(items[i + 1..]) == PrintList(items)
  {
    assert items[i..][1..] == items[i + 1..];
    if i > 0 {
      Associate(done, [COMMA] + Print(items[i]), PrintItems(items[i + 1..]));
      Associate(done, [COMMA], Print(items[i]));
    }
  }

  method AppendList(items: seq<Json>, out: bytes) returns (r: bytes)
    ensures r == out + PrintList(items)
    decreases items
  {
    ghost var done := [];
    r := out;
    var i := 0;
    while i < |items|
      invariant 0 <= i <= |items|
      invariant r == out + done
      invariant if i == 0 then done == [] else done + PrintItems(items[i..]) == PrintList(items)
    {
      NextItem(items, i, done);
      if i != 0 {
        Associate(out, done, [COMMA]);
        r, done := r + [COMMA], done + [COMMA];
      }
      r := CanonicalJson(items[i], r);
      Associate(out, done, Print(items[i]));
      done := done + Print(items[i]);
      i := i + 1;
    }
    assert items[|items|..] == [];
    assert done == PrintList(items);
  }

  method AppendMember(value: Json, key: bytes, out: bytes) returns (r: bytes)
    requires value.Object? && key in value.members
    ensures r == out + PrintMember(value, key)
    decreases value, 0
  {
    r := AppendJsonString(out, key);
    r := r + [COLON];
    r := CanonicalJson(value.members[key], r);
    Associate(out, Quoted(key), [COLON]);
    Associate(out, Quoted(key) + [COLON], Print(value.members[key]));
  }

  lemma {:induction false} NextKey(value: Json, keys: seq<bytes>, i: nat, done: bytes)
    requires value.Object? && forall k | k in keys :: k in value.members
    requires i < |keys|
    requires if i == 0 then done == [] else done + PrintMembers(value, keys[i..]) == PrintKeys(value, keys)
    ensures done + (if i == 0 then [] else [COMMA]) + PrintMember(value, keys[i]) + PrintMembers(value, keys[i + 1..])
         == PrintKeys(value, keys)
  {
    assert keys[i..][1..] == keys[i + 1..];
    if i > 0 {
      Associate(done, [COMMA] + PrintMember(value, keys[i]), PrintMembers(value, keys[i + 1..]));
      Associate(done, [COMMA], PrintMember(value, keys[i]));
    }
  }

  method AppendKeys(value: Json, keys: seq<bytes>, out: bytes) returns (r: bytes)
    requires value.Object? && forall k | k in keys :: k in value.members
    ensures r == out + PrintKeys(value, keys)
    decreases value, 1
  {
    ghost var done := [];
    r := out;
    var index := 0;
    while index < |keys|
      invariant 0 <= index <= |keys|
      invariant r == out + done
      invariant if index == 0 then done == [] else done + PrintMembers(value, keys[index..]) == PrintKeys(value, keys)
    {
      NextKey(value, keys, index, done);
      if index != 0 {
        Associate(out, done, [COMMA]);
        r, done := r + [COMMA], done + [COMMA];
      }
      r := AppendMember(value, keys[index], r);
      Associate(out, done, PrintMember(value, keys[index]));
      done := done + PrintMember(value, keys[index]);
      index := index + 1;
    }
    assert keys[|keys|..] == [];
    assert done == PrintKeys(value, keys);
  }

  method AppendMembers(value: Json, out: bytes) returns (r: bytes)
    requires value.Object?
    ensures r == out + Print(value)
    decreases value, 2
  {
    var keys := SortedKeys(value.members.Keys);
    r := AppendKeys(value, keys, out + [OPEN_BRACE]);
    r := r + [CLOSE_BRACE];
    Associate(out, [OPEN_BRACE], PrintKeys(value, keys));
    Associate(out, [OPEN_BRACE] + PrintKeys(value, keys), [CLOSE_BRACE]);
  }
}
