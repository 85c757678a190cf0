/** Whole documents: the parser against the grammar, in both directions. */
module JsonDocuments {
  import opened Bytes
  import opened Json
  import opened JsonParser
  import opened JsonText
  import opened JsonExact

  lemma WordComplete(t: Tree, rest: bytes)
    requires t.NullWord? || t.TrueWord? || t.FalseWord?
    ensures ParseScalar(Spell(t) + rest) == Read(Meaning(t), rest)
  {
    var w := Spell(t);
    var s := w + rest;
    assert s[..|w|] == w && s[|w|..] == rest;
    assert s[0] == w[0];
    assert Ascii("true")[0] == 0x74 && Ascii("false")[0] == 0x66 && Ascii("null")[0] == 0x6E;
  }

  lemma NumberIsScalar(n: NumberText, rest: bytes)
    requires NumberOk(n) && EndsNumber(rest)
    ensures ParseScalar(SpellNumber(n) + rest) == Read(Number(SpellNumber(n)), rest)
    ensures (SpellNumber(n) + rest)[0] == (if n.minus then MINUS else n.integer[0])
  {
    var s := SpellNumber(n) + rest;
    assert s[0] == (if n.minus then MINUS else n.integer[0]);
    assert Ascii("true")[0] == 0x74 && Ascii("false")[0] == 0x66 && Ascii("null")[0] == 0x6E;
    NumberComplete(n, rest);
  }

  /** The first byte of a value is never a space or a closing bracket. */
  lemma FirstByte(t: Tree)
    requires TreeOk(t)
    ensures Spell(t) != [] && !IsSpace(Spell(t)[0])
    ensures Spell(t)[0] != CLOSE_BRACKET && Spell(t)[0] != CLOSE_BRACE
  {
    match t {
      case NumberWord(n) => assert Spell(t)[0] == (if n.minus then MINUS else n.integer[0]); assert IsDigit(n.integer[0]);
      case _ =>
        assert Ascii("true")[0] == 0x74 && Ascii("false")[0] == 0x66 && Ascii("null")[0] == 0x6E;
    }
  }

  lemma SpacesEndNumber(after: bytes, c: Byte, rest: bytes)
    requires Spaces(after) && EndsNumber([c])
    ensures EndsNumber(after + ([c] + rest))
    ensures SkipSpace(after + ([c] + rest)) == SkipSpace([c] + rest)
  {
    SkipSpaces(after, [c] + rest);
  }

  lemma EmptyComplete(open: Byte, close: Byte, space: bytes, rest: bytes)
    requires Spaces(space) && !IsSpace(close)
    ensures var s := [open] + space + [close] + rest;
            s[0] == open && SkipSpace(s[1..]) == [close] + rest && ([close] + rest)[1..] == rest
  {
    var s := [open] + space + [close] + rest;
    assert s[1..] == space + ([close] + rest);
    SkipSpaces(space, [close] + rest);
  }

  lemma LeafComplete(t: Tree, rest: bytes, depth: nat)
    requires TreeOk(t) && !t.ArrayOf? && !t.ObjectOf? && depth <= MAXIMUM_DEPTH && EndsNumber(rest)
    ensures ParseValue(Spell(t) + rest, depth) == Read(Meaning(t), rest)
  {
    var s := Spell(t) + rest;
    FirstByte(t);
    assert s[0] == Spell(t)[0];
    assert SkipSpace(s) == s;
    match t {
      case NumberWord(n) =>
        NumberIsScalar(n, rest);
        assert IsDigit(n.integer[0]);
      case StringWord(ps) => StringComplete(ps, rest);
      case EmptyArray(space) => EmptyComplete(OPEN_BRACKET, CLOSE_BRACKET, space, rest);
      case EmptyObject(space) => EmptyComplete(OPEN_BRACE, CLOSE_BRACE, space, rest);
      case NullWord | TrueWord | FalseWord =>
        assert Ascii("true")[0] == 0x74 && Ascii("false")[0] == 0x66 && Ascii("null")[0] == 0x6E;
        WordComplete(t, rest);
    }
  }

  lemma Bracketed(open: Byte, body: bytes, close: Byte, rest: bytes)
    ensures var s := [open] + body + [close] + rest;
            s[0] == open && s[1..] == body + ([close] + rest)
  {}

  /** A bracketed list of items, once the item loop is known to read it. */
  lemma ReadsArray(body: bytes, rest: bytes, depth: nat, items: seq<Json>)
    requires depth <= MAXIMUM_DEPTH
    requires var s := SkipSpace(body + ([CLOSE_BRACKET] + rest));
             s != [] && s[0] != CLOSE_BRACKET && ParseItems(s, depth, []) == Read(Array([] + items), rest)
    ensures ParseValue([OPEN_BRACKET] + body + [CLOSE_BRACKET] + rest, depth) == Read(Array(items), rest)
  {
    Bracketed(OPEN_BRACKET, body, CLOSE_BRACKET, rest);
    assert [] + items == items;
  }

  lemma ReadsObject(body: bytes, rest: bytes, depth: nat, members: map<bytes, Json>)
    requires depth <= MAXIMUM_DEPTH
    requires var s := SkipSpace(body + ([CLOSE_BRACE] + rest));
             s != [] && s[0] == QUOTE && ParseMembers(s, depth, map[]) == Read(Object(map[] + members), rest)
    ensures ParseValue([OPEN_BRACE] + body + [CLOSE_BRACE] + rest, depth) == Read(Object(members), rest)
  {
    Bracketed(OPEN_BRACE, body, CLOSE_BRACE, rest);
    assert map[] + members == members;
  }

  lemma {:induction false} TreeComplete(t: Tree, rest: bytes, depth: nat)
    requires TreeOk(t) && depth <= MAXIMUM_DEPTH && Within(t, MAXIMUM_DEPTH - depth) && EndsNumber(rest)
    ensures ParseValue(Spell(t) + rest, depth) == Read(Meaning(t), rest)
    decreases t, 1
  {
    match t {
      case ArrayOf(items) =>
        ItemsComplete(items, rest, depth, []);
        ReadsArray(SpellItems(items), rest, depth, ItemsMeaning(items));
      case ObjectOf(members) =>
        MembersComplete(members, rest, depth, map[]);
        ReadsObject(SpellMembers(members), rest, depth, MembersMeaning(members));
      case _ => LeafComplete(t, rest, depth);
    }
  }

  /** A value with spaces before it and a closing or separating byte after it. */
  lemma {:induction false} SpacedComplete(v: Spaced, c: Byte, rest: bytes, depth: nat)
    requires Spaces(v.before) && TreeOk(v.tree) && Spaces(v.after) && EndsNumber([c]) && !IsSpace(c)
    requires depth <= MAXIMUM_DEPTH && Within(v.tree, MAXIMUM_DEPTH - depth)
    ensures var s := v.before + Spell(v.tree) + v.after + ([c] + rest);
            var t := Spell(v.tree) + (v.after + ([c] + rest));
            SkipSpace(s) == t && ParseValue(s, depth) == ParseValue(t, depth)
            && ParseValue(t, depth) == Read(Meaning(v.tree), v.after + ([c] + rest))
            && SkipSpace(v.after + ([c] + rest)) == [c] + rest
            && t[0] == Spell(v.tree)[0]
    decreases v, 2
  {
    var tail := v.after + ([c] + rest);
    var t := Spell(v.tree) + tail;
    Join4(v.before, Spell(v.tree), v.after, [c] + rest);
    FirstByte(v.tree);
    SkipSpaces(v.before, t);
    SpacesEndNumber(v.after, c, rest);
    TreeComplete(v.tree, tail, depth);
  }

  lemma Join4(a: bytes, b: bytes, c: bytes, d: bytes)
    ensures a + b + c + d == a + (b + (c + d))
  {
    Associate(a + b, c, d);
    Associate(a, b, c + d);
  }

  /** What the item loop does with one item read. */
  lemma ItemStep(s: bytes, depth: nat, read: seq<Json>, value: Json, tail: bytes, c: Byte, rest: bytes)
    requires ParseValue(s, depth + 1) == Read(value, tail) && SkipSpace(tail) == [c] + rest
    requires c == COMMA || c == CLOSE_BRACKET
    ensures ParseItems(s, depth, read) ==
            (if c == CLOSE_BRACKET then Read(Array(read + [value]), rest) else ParseItems(SkipSpace(rest), depth, read + [value]))
  {
    assert ([c] + rest)[1..] == rest;
  }

  /** One round of the item loop. */
  lemma {:induction false} ItemComplete(v: Spaced, c: Byte, rest: bytes, depth: nat, read: seq<Json>)
    requires Spaces(v.before) && TreeOk(v.tree) && Spaces(v.after) && (c == COMMA || c == CLOSE_BRACKET)
    requires depth < MAXIMUM_DEPTH && Within(v.tree, MAXIMUM_DEPTH - depth - 1)
    ensures var s := SkipSpace(v.before + Spell(v.tree) + v.after + ([c] + rest));
            var more := read + [Meaning(v.tree)];
            s != [] && s[0] != CLOSE_BRACKET
            && ParseItems(s, depth, read) ==
               (if c == CLOSE_BRACKET then Read(Array(more), rest) else ParseItems(SkipSpace(rest), depth, more))
    decreases v, 3
  {
    FirstByte(v.tree);
    SpacedComplete(v, c, rest, depth + 1);
    var s := SkipSpace(v.before + Spell(v.tree) + v.after + ([c] + rest));
    ItemStep(s, depth, read, Meaning(v.tree), v.after + ([c] + rest), c, rest);
  }

  lemma {:induction false} ItemsComplete(items: Items, rest: bytes, depth: nat, read: seq<Json>)
    requires ItemsOk(items) && depth < MAXIMUM_DEPTH && ItemsWithin(items, MAXIMUM_DEPTH - depth - 1)
    ensures var s := SkipSpace(SpellItems(items) + ([CLOSE_BRACKET] + rest));
            s != [] && s[0] != CLOSE_BRACKET
            && ParseItems(s, depth, read) == Read(Array(read + ItemsMeaning(items)), rest)
    decreases items, 4
  {
    var v := items.item;
    match items {
      case LastItem(_) => ItemComplete(v, CLOSE_BRACKET, rest, depth, read);
      case MoreItems(_, others) =>
        var tail := SpellItems(others) + ([CLOSE_BRACKET] + rest);
        ItemComplete(v, COMMA, tail, depth, read);
        ItemsComplete(others, rest, depth, read + [Meaning(v.tree)]);
        Separate(v.before + Spell(v.tree) + v.after, SpellItems(others), [CLOSE_BRACKET] + rest);
        assert read + [Meaning(v.tree)] + ItemsMeaning(others) == read + ItemsMeaning(items);
    }
  }

  lemma Separate(a: bytes, b: bytes, c: bytes)
    ensures a + [COMMA] + b + c == a + ([COMMA] + (b + c))
  {}

  /** A member's name and colon. */
  lemma KeyComplete(m: MemberText, tail: bytes)
    requires KeyOk(m)
    ensures var s := SkipSpace(SpellKey(m) + tail);
            s != [] && s[0] == QUOTE
            && ParseKey(s) == Read(StringMeaning(m.key), tail)
  {
    var after := m.between + ([COLON] + tail);
    Join(m.before, SpellString(m.key), m.between, [COLON], tail);
    SkipSpaces(m.before, SpellString(m.key) + after);
    assert (SpellString(m.key) + after)[0] == QUOTE;
    StringComplete(m.key, after);
    SkipSpaces(m.between, [COLON] + tail);
    assert ([COLON] + tail)[1..] == tail;
  }

  /** One round of the member loop. */
  lemma {:induction false} MemberComplete(m: MemberText, c: Byte, rest: bytes, depth: nat, read: map<bytes, Json>)
    requires KeyOk(m) && TreeOk(m.value.tree) && depth < MAXIMUM_DEPTH && Within(m.value.tree, MAXIMUM_DEPTH - depth - 1)
    requires StringMeaning(m.key) !in read
    requires c == COMMA || c == CLOSE_BRACE
    ensures var s := SkipSpace(SpellKey(m) + (m.value.before + Spell(m.value.tree) + m.value.after + ([c] + rest)));
            var more := read[StringMeaning(m.key) := Meaning(m.value.tree)];
            s != [] && s[0] == QUOTE
            && ParseMembers(s, depth, read) ==
               (if c == CLOSE_BRACE then Read(Object(more), rest) else ParseMembers(SkipSpace(rest), depth, more))
    decreases m, 3
  {
    var tail := m.value.before + Spell(m.value.tree) + m.value.after + ([c] + rest);
    KeyComplete(m, tail);
    SpacedComplete(m.value, c, rest, depth + 1);
    assert ([c] + rest)[1..] == rest;
  }

  lemma MemberSpelling(m: MemberText, tail: bytes)
    ensures SpellKey(m) + m.value.before + Spell(m.value.tree) + m.value.after + tail
         == SpellKey(m) + (m.value.before + Spell(m.value.tree) + m.value.after + tail)
  {
    Join(SpellKey(m), m.value.before, Spell(m.value.tree), m.value.after, tail);
    Join4(m.value.before, Spell(m.value.tree), m.value.after, tail);
  }

  lemma MoreSpelling(m: MemberText, others: Members, rest: bytes)
    ensures SpellMembers(MoreMembers(m, others)) + rest
         == SpellKey(m) + (m.value.before + Spell(m.value.tree) + m.value.after + ([COMMA] + (SpellMembers(others) + rest)))
  {
    MemberSpelling(m, [COMMA] + (SpellMembers(others) + rest));
    Separate(SpellKey(m) + m.value.before + Spell(m.value.tree) + m.value.after, SpellMembers(others), rest);
  }

  lemma {:induction false} MembersComplete(members: Members, rest: bytes, depth: nat, read: map<bytes, Json>)
    requires MembersOk(members) && depth < MAXIMUM_DEPTH && MembersWithin(members, MAXIMUM_DEPTH - depth - 1)
    requires Keys(members) !! read.Keys
    ensures var s := SkipSpace(SpellMembers(members) + ([CLOSE_BRACE] + rest));
            s != [] && s[0] == QUOTE
            && ParseMembers(s, depth, read) == Read(Object(read + MembersMeaning(members)), rest)
    decreases members, 4
  {
    var m := members.member;
    var key, value := StringMeaning(m.key), Meaning(m.value.tree);
    assert key in Keys(members);
    match members {
      case LastMember(_) =>
        MemberComplete(m, CLOSE_BRACE, rest, depth, read);
        MemberSpelling(m, [CLOSE_BRACE] + rest);
        assert read[key := value] == read + MembersMeaning(members);
      case MoreMembers(_, others) =>
        MoreSpelling(m, others, [CLOSE_BRACE] + rest);
        MemberComplete(m, COMMA, SpellMembers(others) + ([CLOSE_BRACE] + rest), depth, read);
        MembersComplete(others, rest, depth, read[key := value]);
        EmplaceFirst(read, key, value, MembersMeaning(others));
    }
  }
}
