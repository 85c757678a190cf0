/** JSON texts as the grammar describes them (section 2 of RFC 8259), independently of any parser. */
module JsonText {
  import opened Bytes
  import opened Utf8
  import opened Json

  /** One spelling of a piece of string content. */
  datatype Piece =
    | Raw(byte: Byte)
    | Short(letter: Byte)
    | Unit(digits: bytes)
    | Surrogates(high: bytes, low: bytes)

  datatype ExponentText = NoExponent | Exponent(letter: Byte, sign: bytes, digits: bytes)

  /** A number: an empty fraction stands for none. */
  datatype NumberText = NumberText(minus: bool, integer: bytes, fraction: bytes, exponent: ExponentText)

  /** A value with the spaces around it. */
  datatype Spaced = Spaced(before: bytes, tree: Tree, after: bytes)

  datatype MemberText = MemberText(before: bytes, key: seq<Piece>, between: bytes, value: Spaced)

  datatype Tree =
    | NullWord | TrueWord | FalseWord
    | NumberWord(number: NumberText)
    | StringWord(pieces: seq<Piece>)
    | EmptyArray(space: bytes)
    | ArrayOf(items: Items)
    | EmptyObject(space: bytes)
    | ObjectOf(members: Members)

  datatype Items = LastItem(item: Spaced) | MoreItems(item: Spaced, rest: Items)

  datatype Members = LastMember(member: MemberText) | MoreMembers(member: MemberText, rest: Members)

  predicate Spaces(s: bytes) { forall i | 0 <= i < |s| :: IsSpace(s[i]) }

  predicate FourHex(s: bytes) { |s| == 4 && IsHex4(s) }

  // What each construct is spelled as.

  function SpellPiece(p: Piece): (r: bytes)
    ensures r != []
  {
    match p
    case Raw(b) => [b]
    case Short(c) => [BACKSLASH, c]
    case Unit(d) => [BACKSLASH, LETTER_U] + d
    case Surrogates(h, l) => [BACKSLASH, LETTER_U] + h + [BACKSLASH, LETTER_U] + l
  }

  function SpellPieces(ps: seq<Piece>): bytes {
    if ps == [] then [] else SpellPiece(ps[0]) + SpellPieces(ps[1..])
  }

  function SpellString(ps: seq<Piece>): bytes { [QUOTE] + SpellPieces(ps) + [QUOTE] }

  function SpellExponent(e: ExponentText): bytes {
    if e.NoExponent? then [] else [e.letter] + e.sign + e.digits
  }

  function SpellNumber(n: NumberText): bytes {
    (if n.minus then [MINUS] else []) + n.integer +
    (if n.fraction == [] then [] else [0x2E] + n.fraction) + SpellExponent(n.exponent)
  }

  function Spell(t: Tree): bytes
    decreases t, 1
  {
    match t
    case NullWord => Ascii("null")
    case TrueWord => Ascii("true")
    case FalseWord => Ascii("false")
    case NumberWord(n) => SpellNumber(n)
    case StringWord(ps) => SpellString(ps)
    case EmptyArray(s) => [OPEN_BRACKET] + s + [CLOSE_BRACKET]
    case ArrayOf(items) => [OPEN_BRACKET] + SpellItems(items) + [CLOSE_BRACKET]
    case EmptyObject(s) => [OPEN_BRACE] + s + [CLOSE_BRACE]
    case ObjectOf(members) => [OPEN_BRACE] + SpellMembers(members) + [CLOSE_BRACE]
  }

  function SpellItems(items: Items): bytes {
    match items
    case LastItem(v) => v.before + Spell(v.tree) + v.after
    case MoreItems(v, rest) => v.before + Spell(v.tree) + v.after + [COMMA] + SpellItems(rest)
  }

  /** A member up to its colon. */
  function SpellKey(m: MemberText): bytes { m.before + SpellString(m.key) + m.between + [COLON] }

  function SpellMembers(members: Members): bytes {
    match members
    case LastMember(m) => SpellKey(m) + m.value.before + Spell(m.value.tree) + m.value.after
    case MoreMembers(m, rest) =>
      SpellKey(m) + m.value.before + Spell(m.value.tree) + m.value.after + [COMMA] + SpellMembers(rest)
  }

  // What each construct means.

  predicate PieceOk(p: Piece) {
    match p
    case Raw(b) => b >= 0x20 && b != QUOTE && b != BACKSLASH
    case Short(c) => ShortEscape(c) >= 0
    case Unit(d) => FourHex(d) && !(0xD800 <= Hex4Value(d) <= 0xDFFF)
    case Surrogates(h, l) =>
      && FourHex(h) && 0xD800 <= Hex4Value(h) <= 0xDBFF
      && FourHex(l) && 0xDC00 <= Hex4Value(l) <= 0xDFFF
  }

  predicate PiecesOk(ps: seq<Piece>) { forall i | 0 <= i < |ps| :: PieceOk(ps[i]) }

  function PieceMeaning(p: Piece): bytes
    requires PieceOk(p)
  {
    match p
    case Raw(b) => [b]
    case Short(c) => [ShortEscape(c)]
    case Unit(d) => Encode(Hex4Value(d))
    case Surrogates(h, l) => Encode(0x10000 + (Hex4Value(h) - 0xD800) * 1024 + (Hex4Value(l) - 0xDC00))
  }

  function StringMeaning(ps: seq<Piece>): bytes
    requires PiecesOk(ps)
  {
    if ps == [] then [] else PieceMeaning(ps[0]) + StringMeaning(ps[1..])
  }

  predicate ExponentOk(e: ExponentText) {
    e.Exponent? ==>
      && (e.letter == 0x65 || e.letter == 0x45)
      && (e.sign == [] || e.sign == [0x2B] || e.sign == [MINUS])
      && e.digits != [] && Digits(e.digits)
  }

  predicate NumberOk(n: NumberText) {
    && n.integer != [] && Digits(n.integer) && (n.integer[0] == ZERO ==> |n.integer| == 1)
    && Digits(n.fraction)
    && ExponentOk(n.exponent)
  }

  ghost predicate IsLexeme(l: bytes) {
    exists n :: NumberOk(n) && SpellNumber(n) == l
  }

  function Keys(members: Members): set<bytes>
    requires KeysOk(members)
  {
    match members
    case LastMember(m) => {StringMeaning(m.key)}
    case MoreMembers(m, rest) => {StringMeaning(m.key)} + Keys(rest)
  }

  predicate KeysOk(members: Members) {
    match members
    case LastMember(m) => PiecesOk(m.key)
    case MoreMembers(m, rest) => PiecesOk(m.key) && KeysOk(rest)
  }

  /** Grammatical, with distinct member names in every object. */
  predicate TreeOk(t: Tree)
    decreases t, 2
  {
    match t
    case NumberWord(n) => NumberOk(n)
    case StringWord(ps) => PiecesOk(ps)
    case EmptyArray(s) => Spaces(s)
    case ArrayOf(items) => ItemsOk(items)
    case EmptyObject(s) => Spaces(s)
    case ObjectOf(members) => MembersOk(members)
    case _ => true
  }

  predicate ItemsOk(items: Items) {
    match items
    case LastItem(v) => Spaces(v.before) && TreeOk(v.tree) && Spaces(v.after)
    case MoreItems(v, rest) => Spaces(v.before) && TreeOk(v.tree) && Spaces(v.after) && ItemsOk(rest)
  }

  /** A member's spaces and name. */
  predicate KeyOk(m: MemberText) {
    Spaces(m.before) && PiecesOk(m.key) && Spaces(m.between) && Spaces(m.value.before) && Spaces(m.value.after)
  }

  predicate MembersOk(members: Members)
    ensures MembersOk(members) ==> KeysOk(members)
  {
    match members
    case LastMember(m) => KeyOk(m) && TreeOk(m.value.tree)
    case MoreMembers(m, rest) =>
      KeyOk(m) && TreeOk(m.value.tree) && MembersOk(rest) && StringMeaning(m.key) !in Keys(rest)
  }

  function Meaning(t: Tree): Json
    requires TreeOk(t)
    decreases t, 1
  {
    match t
    case NullWord => Null
    case TrueWord => Bool(true)
    case FalseWord => Bool(false)
    case NumberWord(n) => Number(SpellNumber(n))
    case StringWord(ps) => Text(StringMeaning(ps))
    case EmptyArray(_) => Array([])
    case ArrayOf(items) => Array(ItemsMeaning(items))
    case EmptyObject(_) => Object(map[])
    case ObjectOf(members) => Object(MembersMeaning(members))
  }

  function ItemsMeaning(items: Items): seq<Json>
    requires ItemsOk(items)
  {
    match items
    case LastItem(v) => [Meaning(v.tree)]
    case MoreItems(v, rest) => [Meaning(v.tree)] + ItemsMeaning(rest)
  }

  function MembersMeaning(members: Members): (r: map<bytes, Json>)
    requires MembersOk(members)
    ensures r.Keys == Keys(members)
  {
    match members
    case LastMember(m) => map[StringMeaning(m.key) := Meaning(m.value.tree)]
    case MoreMembers(m, rest) => MembersMeaning(rest)[StringMeaning(m.key) := Meaning(m.value.tree)]
  }

  /** At most n arrays and objects with content around any value. */
  predicate Within(t: Tree, n: int)
    decreases t, 2
  {
    match t
    case ArrayOf(items) => n >= 1 && ItemsWithin(items, n - 1)
    case ObjectOf(members) => n >= 1 && MembersWithin(members, n - 1)
    case _ => true
  }

  predicate ItemsWithin(items: Items, n: int) {
    match items
    case LastItem(v) => Within(v.tree, n)
    case MoreItems(v, rest) => Within(v.tree, n) && ItemsWithin(rest, n)
  }

  predicate MembersWithin(members: Members, n: int) {
    match members
    case LastMember(m) => Within(m.value.tree, n)
    case MoreMembers(m, rest) => Within(m.value.tree, n) && MembersWithin(rest, n)
  }

  /** The (name, meaning) pairs of an object text. */
  function Pairs(members: Members): set<(bytes, Json)>
    requires MembersOk(members)
  {
    match members
    case LastMember(m) => {(StringMeaning(m.key), Meaning(m.value.tree))}
    case MoreMembers(m, rest) => {(StringMeaning(m.key), Meaning(m.value.tree))} + Pairs(rest)
  }

  lemma {:induction false} PairsAreItems(members: Members)
    requires MembersOk(members)
    ensures Pairs(members) == MembersMeaning(members).Items
  {
    if members.MoreMembers? {
      PairsAreItems(members.rest);
      var key, value := StringMeaning(members.member.key), Meaning(members.member.value.tree);
      var m, all := MembersMeaning(members.rest), MembersMeaning(members);
      forall p ensures p in all.Items <==> p in Pairs(members) {
        if p in all.Items && p.0 != key { assert p in m.Items; }
        if p in m.Items { assert p.0 in m && p.0 != key; }
      }
    } else {
      var key, value := StringMeaning(members.member.key), Meaning(members.member.value.tree);
      assert MembersMeaning(members) == map[key := value];
      assert forall p :: p in map[key := value].Items <==> p == (key, value);
    }
  }

  /** Member order is immaterial: two object texts mean the same exactly when they list the same pairs. */
  lemma {:induction false} MembersInAnyOrder(a: Members, b: Members)
    requires MembersOk(a) && MembersOk(b)
    ensures Meaning(ObjectOf(a)) == Meaning(ObjectOf(b)) <==> Pairs(a) == Pairs(b)
  {
    PairsAreItems(a);
    PairsAreItems(b);
    var x, y := MembersMeaning(a), MembersMeaning(b);
    if x.Items == y.Items {
      forall k ensures k in x <==> k in y {
        if k in x { assert (k, x[k]) in y.Items; }
        if k in y { assert (k, y[k]) in x.Items; }
      }
      forall k | k in x ensures x[k] == y[k] { assert (k, x[k]) in y.Items; }
      assert x == y;
    }
  }

  lemma EmplaceFirst(read: map<bytes, Json>, key: bytes, value: Json, more: map<bytes, Json>)
    requires key !in more
    ensures read[key := value] + more == read + more[key := value]
  {}
}
