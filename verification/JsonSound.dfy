/** Whatever the parser reads is grammatical, and means what the grammar says. */
module JsonSound {
  import opened Bytes
  import opened Json
  import opened JsonParser
  import opened JsonText
  import opened JsonExact

  lemma {:induction false} SkipTwice(s: bytes)
    ensures SkipSpace(SkipSpace(s)) == SkipSpace(s)
  {}

  lemma ScalarSound(s: bytes) returns (t: Tree)
    requires ParseScalar(s).Read?
    ensures TreeOk(t) && !t.ArrayOf? && !t.ObjectOf?
    ensures s == Spell(t) + ParseScalar(s).rest && ParseScalar(s).value == Meaning(t)
  {
    if Ascii("true") <= s {
      t := TrueWord;
    } else if Ascii("false") <= s {
      t := FalseWord;
    } else if Ascii("null") <= s {
      t := NullWord;
    } else {
      var n := NumberSound(s);
      t := NumberWord(n);
    }
  }

  lemma {:induction false} TreeSound(s: bytes, depth: nat) returns (before: bytes, t: Tree)
    requires ParseValue(s, depth).Read?
    ensures Spaces(before) && TreeOk(t) && depth <= MAXIMUM_DEPTH && Within(t, MAXIMUM_DEPTH - depth)
    ensures s == before + Spell(t) + ParseValue(s, depth).rest
    ensures ParseValue(s, depth).value == Meaning(t)
    decreases |s|, 1
  {
    before := SpacesSkipped(s);
    var u := SkipSpace(s);
    var rest := ParseValue(s, depth).rest;
    assert u == [u[0]] + u[1..];
    if u[0] == QUOTE {
      var ps := StringSound(u);
      t := StringWord(ps);
    } else if u[0] == OPEN_BRACKET {
      t := ArraySound(u, depth);
    } else if u[0] == OPEN_BRACE {
      t := ObjectSound(u, depth);
    } else {
      t := ScalarSound(u);
    }
    assert u == Spell(t) + rest;
    Associate(before, Spell(t), rest);
  }

  lemma {:induction false} ArraySound(u: bytes, depth: nat) returns (t: Tree)
    requires u != [] && u[0] == OPEN_BRACKET && ParseValue(u, depth).Read?
    ensures TreeOk(t) && depth <= MAXIMUM_DEPTH && Within(t, MAXIMUM_DEPTH - depth)
    ensures u == Spell(t) + ParseValue(u, depth).rest && ParseValue(u, depth).value == Meaning(t)
    decreases |u|, 0
  {
    var v := SkipSpace(u[1..]);
    ArrayValue(u, depth);
    if v != [] && v[0] == CLOSE_BRACKET {
      t := EmptyArraySound(u);
    } else {
      var items := ItemsSound(u[1..], depth, []);
      t := WrapItems(u, depth, ParseItems(v, depth, []), items);
    }
  }

  lemma ArrayValue(u: bytes, depth: nat)
    requires u != [] && u[0] == OPEN_BRACKET && ParseValue(u, depth).Read?
    ensures var v := SkipSpace(u[1..]);
            && depth <= MAXIMUM_DEPTH
            && ParseValue(u, depth) == if v != [] && v[0] == CLOSE_BRACKET then Read(Array([]), v[1..]) else ParseItems(v, depth, [])
  {
    assert SkipSpace(u) == u;
  }

  lemma EmptyArraySound(u: bytes) returns (t: Tree)
    requires u != [] && u[0] == OPEN_BRACKET
    requires var v := SkipSpace(u[1..]); v != [] && v[0] == CLOSE_BRACKET
    ensures TreeOk(t) && t.EmptyArray? && u == Spell(t) + SkipSpace(u[1..])[1..]
  {
    var v := SkipSpace(u[1..]);
    var space := SpacesSkipped(u[1..]);
    t := EmptyArray(space);
    assert u == [OPEN_BRACKET] + u[1..];
    assert v == [CLOSE_BRACKET] + v[1..];
  }

  lemma WrapItems(u: bytes, depth: nat, r: Parsed<Json>, items: Items) returns (t: Tree)
    requires u != [] && u[0] == OPEN_BRACKET && ItemsAccounted(u[1..], depth, [], r, items)
    ensures TreeOk(t) && depth <= MAXIMUM_DEPTH && Within(t, MAXIMUM_DEPTH - depth)
    ensures u == Spell(t) + r.rest && r.value == Meaning(t)
  {
    t := ArrayOf(items);
    assert u == [OPEN_BRACKET] + u[1..];
    assert [] + ItemsMeaning(items) == ItemsMeaning(items);
  }

  lemma {:induction false} ObjectSound(u: bytes, depth: nat) returns (t: Tree)
    requires u != [] && u[0] == OPEN_BRACE && ParseValue(u, depth).Read?
    ensures TreeOk(t) && depth <= MAXIMUM_DEPTH && Within(t, MAXIMUM_DEPTH - depth)
    ensures u == Spell(t) + ParseValue(u, depth).rest && ParseValue(u, depth).value == Meaning(t)
    decreases |u|, 0
  {
    var v := SkipSpace(u[1..]);
    ObjectValue(u, depth);
    if v != [] && v[0] == CLOSE_BRACE {
      t := EmptyObjectSound(u);
    } else {
      var members := MembersSound(u[1..], depth, map[]);
      t := WrapMembers(u, depth, ParseMembers(v, depth, map[]), members);
    }
  }

  lemma ObjectValue(u: bytes, depth: nat)
    requires u != [] && u[0] == OPEN_BRACE && ParseValue(u, depth).Read?
    ensures var v := SkipSpace(u[1..]);
            && depth <= MAXIMUM_DEPTH
            && ParseValue(u, depth) == if v != [] && v[0] == CLOSE_BRACE then Read(Object(map[]), v[1..]) else ParseMembers(v, depth, map[])
  {
    assert SkipSpace(u) == u;
  }

  lemma EmptyObjectSound(u: bytes) returns (t: Tree)
    requires u != [] && u[0] == OPEN_BRACE
    requires var v := SkipSpace(u[1..]); v != [] && v[0] == CLOSE_BRACE
    ensures TreeOk(t) && t.EmptyObject? && u == Spell(t) + SkipSpace(u[1..])[1..]
  {
    var v := SkipSpace(u[1..]);
    var space := SpacesSkipped(u[1..]);
    t := EmptyObject(space);
    assert u == [OPEN_BRACE] + u[1..];
    assert v == [CLOSE_BRACE] + v[1..];
  }

  lemma WrapMembers(u: bytes, depth: nat, r: Parsed<Json>, members: Members) returns (t: Tree)
    requires u != [] && u[0] == OPEN_BRACE && Accounted(u[1..], depth, map[], r, members)
    ensures TreeOk(t) && depth <= MAXIMUM_DEPTH && Within(t, MAXIMUM_DEPTH - depth)
    ensures u == Spell(t) + r.rest && r.value == Meaning(t)
  {
    t := ObjectOf(members);
    assert u == [OPEN_BRACE] + u[1..];
    assert map[] + MembersMeaning(members) == MembersMeaning(members);
  }

  /** One value with the spaces around it, up to the separator that follows. */
  lemma {:induction false} SpacedSound(s: bytes, depth: nat) returns (v: Spaced)
    requires ParseValue(s, depth).Read?
    ensures Spaces(v.before) && TreeOk(v.tree) && Spaces(v.after)
    ensures depth <= MAXIMUM_DEPTH && Within(v.tree, MAXIMUM_DEPTH - depth)
    ensures s == v.before + Spell(v.tree) + v.after + SkipSpace(ParseValue(s, depth).rest)
    ensures ParseValue(s, depth).value == Meaning(v.tree)
    decreases |s|, 2
  {
    var rest := ParseValue(s, depth).rest;
    var before, t := TreeSound(s, depth);
    var after := SpacesSkipped(rest);
    v := Spaced(before, t, after);
    Associate(before + Spell(t), after, SkipSpace(rest));
  }

  lemma SkipFirst(s: bytes, depth: nat)
    ensures ParseValue(SkipSpace(s), depth) == ParseValue(s, depth)
  {
    SkipTwice(s);
  }

  /** One round of the item loop. */
  lemma ItemRound(s: bytes, depth: nat, read: seq<Json>)
    requires ParseItems(SkipSpace(s), depth, read).Read?
    ensures ParseValue(s, depth + 1).Read?
    ensures var s2 := SkipSpace(ParseValue(s, depth + 1).rest);
            var more := read + [ParseValue(s, depth + 1).value];
            && s2 != [] && (s2[0] == CLOSE_BRACKET || s2[0] == COMMA)
            && ParseItems(SkipSpace(s), depth, read) ==
               (if s2[0] == CLOSE_BRACKET then Read(Array(more), s2[1..]) else ParseItems(SkipSpace(s2[1..]), depth, more))
  {
    SkipFirst(s, depth + 1);
  }

  /** These items account for what the item loop read. */
  ghost predicate ItemsAccounted(s: bytes, depth: nat, read: seq<Json>, r: Parsed<Json>, items: Items) {
    && r.Read? && ItemsOk(items) && depth < MAXIMUM_DEPTH && ItemsWithin(items, MAXIMUM_DEPTH - depth - 1)
    && s == SpellItems(items) + [CLOSE_BRACKET] + r.rest
    && r.value == Array(read + ItemsMeaning(items))
  }

  ghost predicate FirstItem(s: bytes, depth: nat, v: Spaced, s2: bytes) {
    && Spaces(v.before) && TreeOk(v.tree) && Spaces(v.after) && depth < MAXIMUM_DEPTH && Within(v.tree, MAXIMUM_DEPTH - depth - 1)
    && s == v.before + Spell(v.tree) + v.after + s2
  }

  lemma LastItemAccounted(s: bytes, depth: nat, read: seq<Json>, v: Spaced, s2: bytes)
    requires FirstItem(s, depth, v, s2) && s2 != [] && s2[0] == CLOSE_BRACKET
    ensures ItemsAccounted(s, depth, read, Read(Array(read + [Meaning(v.tree)]), s2[1..]), LastItem(v))
  {
    LastItemText(s, v, s2);
  }

  lemma MoreItemsAccounted(s: bytes, depth: nat, read: seq<Json>, v: Spaced, s2: bytes, r: Parsed<Json>, others: Items)
    requires FirstItem(s, depth, v, s2) && s2 != [] && s2[0] == COMMA
    requires ItemsAccounted(s2[1..], depth, read + [Meaning(v.tree)], r, others)
    ensures ItemsAccounted(s, depth, read, r, MoreItems(v, others))
  {
    ItemsText(s, v, s2, others, r.rest);
    Prepend(read, Meaning(v.tree), ItemsMeaning(others));
  }

  lemma {:induction false} ItemsSound(s: bytes, depth: nat, read: seq<Json>) returns (items: Items)
    requires ParseItems(SkipSpace(s), depth, read).Read?
    ensures ItemsAccounted(s, depth, read, ParseItems(SkipSpace(s), depth, read), items)
    decreases |s|, 4
  {
    ItemRound(s, depth, read);
    var v := SpacedSound(s, depth + 1);
    var s2 := SkipSpace(ParseValue(s, depth + 1).rest);
    if s2[0] == CLOSE_BRACKET {
      items := LastItem(v);
      LastItemAccounted(s, depth, read, v, s2);
    } else {
      var more := read + [Meaning(v.tree)];
      var others := ItemsSound(s2[1..], depth, more);
      items := MoreItems(v, others);
      MoreItemsAccounted(s, depth, read, v, s2, ParseItems(SkipSpace(s2[1..]), depth, more), others);
    }
  }

  lemma Prepend(read: seq<Json>, j: Json, more: seq<Json>)
    ensures read + [j] + more == read + ([j] + more)
  {}

  lemma LastItemText(s: bytes, v: Spaced, s2: bytes)
    requires s == v.before + Spell(v.tree) + v.after + s2 && s2 != [] && s2[0] == CLOSE_BRACKET
    ensures s == SpellItems(LastItem(v)) + [CLOSE_BRACKET] + s2[1..]
  {
    assert s2 == [CLOSE_BRACKET] + s2[1..];
    Associate(SpellItems(LastItem(v)), [CLOSE_BRACKET], s2[1..]);
  }

  lemma ItemsText(s: bytes, v: Spaced, s2: bytes, others: Items, rest: bytes)
    requires s == v.before + Spell(v.tree) + v.after + s2 && s2 != [] && s2[0] == COMMA
    requires s2[1..] == SpellItems(others) + [CLOSE_BRACKET] + rest
    ensures s == SpellItems(MoreItems(v, others)) + [CLOSE_BRACKET] + rest
  {
    assert s2 == [COMMA] + s2[1..];
    var a := v.before + Spell(v.tree) + v.after;
    Join(a, [COMMA], SpellItems(others), [CLOSE_BRACKET], rest);
    Associate(SpellItems(others), [CLOSE_BRACKET], rest);
  }

  /** A member's spaces, name and colon. */
  lemma KeySound(s: bytes) returns (before: bytes, key: seq<Piece>, between: bytes)
    requires ParseKey(SkipSpace(s)).Read?
    ensures Spaces(before) && PiecesOk(key) && Spaces(between)
    ensures StringMeaning(key) == ParseKey(SkipSpace(s)).value
    ensures s == before + SpellString(key) + between + [COLON] + ParseKey(SkipSpace(s)).rest
  {
    before := SpacesSkipped(s);
    key := StringSound(SkipSpace(s));
    var rest := ParseString(SkipSpace(s)).rest;
    between := SpacesSkipped(rest);
    var u := SkipSpace(rest);
    assert u == [COLON] + u[1..];
    Join(before, SpellString(key), between, [COLON], u[1..]);
  }

  /** One round of the member loop. */
  lemma MemberRound(s: bytes, depth: nat, read: map<bytes, Json>)
    requires ParseMembers(SkipSpace(s), depth, read).Read?
    ensures ParseKey(SkipSpace(s)).Read?
    ensures var key, u := ParseKey(SkipSpace(s)).value, ParseKey(SkipSpace(s)).rest;
            && |u| < |s| && key !in read && ParseValue(u, depth + 1).Read?
            && var s4 := SkipSpace(ParseValue(u, depth + 1).rest);
               var more := read[key := ParseValue(u, depth + 1).value];
            && |s4| < |s| && s4 != [] && (s4[0] == CLOSE_BRACE || s4[0] == COMMA)
            && ParseMembers(SkipSpace(s), depth, read) ==
               (if s4[0] == CLOSE_BRACE then Read(Object(more), s4[1..]) else ParseMembers(SkipSpace(s4[1..]), depth, more))
  {
  }

  /** The name of the first member, and the text of its value and what follows. */
  lemma MemberStart(s: bytes, depth: nat, read: map<bytes, Json>)
    returns (before: bytes, key: seq<Piece>, between: bytes, u: bytes)
    requires ParseMembers(SkipSpace(s), depth, read).Read?
    ensures Spaces(before) && PiecesOk(key) && Spaces(between)
    ensures s == before + SpellString(key) + between + [COLON] + u
    ensures |u| < |s| && StringMeaning(key) !in read && ParseValue(u, depth + 1).Read?
    ensures var s4 := SkipSpace(ParseValue(u, depth + 1).rest);
            var more := read[StringMeaning(key) := ParseValue(u, depth + 1).value];
            && |s4| < |s| && s4 != [] && (s4[0] == CLOSE_BRACE || s4[0] == COMMA)
            && ParseMembers(SkipSpace(s), depth, read) ==
               (if s4[0] == CLOSE_BRACE then Read(Object(more), s4[1..]) else ParseMembers(SkipSpace(s4[1..]), depth, more))
  {
    MemberRound(s, depth, read);
    before, key, between := KeySound(s);
    u := ParseKey(SkipSpace(s)).rest;
  }

  lemma KeyJoins(s: bytes, m: MemberText, u: bytes, s4: bytes)
    requires s == m.before + SpellString(m.key) + m.between + [COLON] + u
    requires u == m.value.before + Spell(m.value.tree) + m.value.after + s4
    ensures s == SpellKey(m) + (m.value.before + Spell(m.value.tree) + m.value.after + s4)
  {}

  /** These members account for what the member loop read. */
  ghost predicate Accounted(s: bytes, depth: nat, read: map<bytes, Json>, r: Parsed<Json>, members: Members) {
    && r.Read? && MembersOk(members) && depth < MAXIMUM_DEPTH && MembersWithin(members, MAXIMUM_DEPTH - depth - 1)
    && Keys(members) !! read.Keys
    && s == SpellMembers(members) + [CLOSE_BRACE] + r.rest
    && r.value == Object(read + MembersMeaning(members))
  }

  ghost predicate FirstMember(s: bytes, depth: nat, read: map<bytes, Json>, m: MemberText, s4: bytes) {
    && KeyOk(m) && TreeOk(m.value.tree) && depth < MAXIMUM_DEPTH && Within(m.value.tree, MAXIMUM_DEPTH - depth - 1)
    && StringMeaning(m.key) !in read
    && s == SpellKey(m) + (m.value.before + Spell(m.value.tree) + m.value.after + s4)
  }

  lemma LastAccounted(s: bytes, depth: nat, read: map<bytes, Json>, m: MemberText, s4: bytes)
    requires FirstMember(s, depth, read, m, s4) && s4 != [] && s4[0] == CLOSE_BRACE
    ensures Accounted(s, depth, read, Read(Object(read[StringMeaning(m.key) := Meaning(m.value.tree)]), s4[1..]), LastMember(m))
  {
    LastText(s, m, s4);
    var name, value := StringMeaning(m.key), Meaning(m.value.tree);
    assert read[name := value] == read + MembersMeaning(LastMember(m));
  }

  lemma MoreAccounted(s: bytes, depth: nat, read: map<bytes, Json>, m: MemberText, s4: bytes, r: Parsed<Json>, others: Members)
    requires FirstMember(s, depth, read, m, s4) && s4 != [] && s4[0] == COMMA
    requires Accounted(s4[1..], depth, read[StringMeaning(m.key) := Meaning(m.value.tree)], r, others)
    ensures Accounted(s, depth, read, r, MoreMembers(m, others))
  {
    var name, value := StringMeaning(m.key), Meaning(m.value.tree);
    assert name in read[name := value].Keys;
    EmplaceFirst(read, name, value, MembersMeaning(others));
    MembersText(s, m, s4, others, r.rest);
  }

  lemma {:induction false} MembersSound(s: bytes, depth: nat, read: map<bytes, Json>) returns (members: Members)
    requires ParseMembers(SkipSpace(s), depth, read).Read?
    ensures Accounted(s, depth, read, ParseMembers(SkipSpace(s), depth, read), members)
    decreases |s|, 4
  {
    var before, key, between, u := MemberStart(s, depth, read);
    var v := SpacedSound(u, depth + 1);
    var m, s4 := MemberText(before, key, between, v), SkipSpace(ParseValue(u, depth + 1).rest);
    KeyJoins(s, m, u, s4);
    if s4[0] == CLOSE_BRACE {
      members := LastMember(m);
      LastAccounted(s, depth, read, m, s4);
    } else {
      var more := read[StringMeaning(key) := Meaning(v.tree)];
      var others := MembersSound(s4[1..], depth, more);
      members := MoreMembers(m, others);
      MoreAccounted(s, depth, read, m, s4, ParseMembers(SkipSpace(s4[1..]), depth, more), others);
    }
  }

  lemma LastText(s: bytes, m: MemberText, s4: bytes)
    requires s == SpellKey(m) + (m.value.before + Spell(m.value.tree) + m.value.after + s4)
    requires s4 != [] && s4[0] == CLOSE_BRACE
    ensures s == SpellMembers(LastMember(m)) + [CLOSE_BRACE] + s4[1..]
  {
    assert s4 == [CLOSE_BRACE] + s4[1..];
    MemberTail(m, s4);
    Associate(SpellMembers(LastMember(m)), [CLOSE_BRACE], s4[1..]);
  }

  lemma MemberTail(m: MemberText, tail: bytes)
    ensures SpellKey(m) + (m.value.before + Spell(m.value.tree) + m.value.after + tail)
         == SpellKey(m) + m.value.before + Spell(m.value.tree) + m.value.after + tail
  {
    Join(SpellKey(m), m.value.before, Spell(m.value.tree), m.value.after, tail);
    Associate(m.value.before + Spell(m.value.tree), m.value.after, tail);
    Associate(m.value.before, Spell(m.value.tree), m.value.after + tail);
  }

  lemma MembersText(s: bytes, m: MemberText, s4: bytes, others: Members, rest: bytes)
    requires s == SpellKey(m) + (m.value.before + Spell(m.value.tree) + m.value.after + s4)
    requires s4 != [] && s4[0] == COMMA && s4[1..] == SpellMembers(others) + [CLOSE_BRACE] + rest
    ensures s == SpellMembers(MoreMembers(m, others)) + [CLOSE_BRACE] + rest
  {
    assert s4 == [COMMA] + s4[1..];
    MemberTail(m, s4);
    var a := SpellKey(m) + m.value.before + Spell(m.value.tree) + m.value.after;
    Join(a, [COMMA], SpellMembers(others), [CLOSE_BRACE], rest);
    Associate(SpellMembers(others), [CLOSE_BRACE], rest);
  }
}
