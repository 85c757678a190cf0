/** How deep arrays may be nested, counted in the text. */
module JsonDepth {
  import opened Bytes
  import opened Utf8
  import opened Wrappers
  import opened Json
  import opened JsonText
  import JsonParser
  import opened JsonRoundTrip

  function Repeated(c: Byte, n: nat): (r: bytes)
    ensures |r| == n && forall i | 0 <= i < n :: r[i] == c
  {
    seq(n, _ => c)
  }

  /** n opening brackets, then as many closing ones. */
  function Brackets(n: nat): bytes { Repeated(0x5B, n) + Repeated(0x5D, n) }

  /** An array inside an array, n deep, the innermost one empty. */
  function Nested(n: nat): Tree
    requires n > 0
  {
    if n == 1 then EmptyArray([]) else ArrayOf(LastItem(Spaced([], Nested(n - 1), [])))
  }

  lemma {:induction false} NestedOk(n: nat, limit: int)
    requires n > 0
    ensures TreeOk(Nested(n)) && Spell(Nested(n)) == Brackets(n)
    ensures n <= limit + 1 ==> Within(Nested(n), limit)
  {
    if n == 1 {
      assert Brackets(1) == [OPEN_BRACKET] + [] + [CLOSE_BRACKET];
    } else {
      NestedOk(n - 1, limit - 1);
      var inner := Brackets(n - 1);
      assert SpellItems(LastItem(Spaced([], Nested(n - 1), []))) == [] + inner + [] == inner;
      assert Brackets(n) == [OPEN_BRACKET] + inner + [CLOSE_BRACKET];
    }
  }

  /** A text that begins with n opening brackets. */
  predicate Opens(text: bytes, n: nat) { n <= |text| && forall i | 0 <= i < n :: text[i] == 0x5B }

  lemma SpaceFirst(s: bytes)
    requires Spaces(s)
    ensures s != [] ==> s[0] != 0x5B
  {}

  lemma WordFirst()
    ensures Ascii("null")[0] != 0x5B && Ascii("true")[0] != 0x5B && Ascii("false")[0] != 0x5B
  {}

  lemma NumberFirst(number: NumberText)
    requires NumberOk(number)
    ensures SpellNumber(number) != [] && SpellNumber(number)[0] != 0x5B
  {
    assert IsDigit(number.integer[0]);
    if number.minus { assert SpellNumber(number)[0] == MINUS; } else { assert SpellNumber(number)[0] == number.integer[0]; }
  }

  /** Only an array begins with a bracket, and only one with content may have another bracket behind it. */
  lemma BracketFirst(t: Tree)
    requires TreeOk(t)
    ensures Spell(t) != [] && (Spell(t)[0] == 0x5B ==> t.EmptyArray? || t.ArrayOf?)
    ensures t.EmptyArray? ==> |Spell(t)| >= 2 && Spell(t)[1] != 0x5B
  {
    JsonDocuments.FirstByte(t);
    WordFirst();
    match t {
      case EmptyArray(s) =>
        SpaceFirst(s);
        assert Spell(t)[1] == (s + [CLOSE_BRACKET])[0];
      case NumberWord(number) => NumberFirst(number);
      case _ =>
    }
  }

  predicate Begins(t: Tree, rest: bytes, n: nat) { Opens(Spell(t) + rest, n) }

  lemma ArrayFirst(t: Tree, rest: bytes, n: nat)
    requires TreeOk(t) && n >= 2 && Begins(t, rest, n)
    ensures t.ArrayOf?
  {
    BracketFirst(t);
    PrefixKept(Spell(t), rest);
  }

  lemma PrefixKept(a: bytes, b: bytes)
    ensures forall i | 0 <= i < |a| :: (a + b)[i] == a[i]
  {}

  lemma BehindBracket(a: bytes, b: bytes)
    ensures a != [] ==> ([OPEN_BRACKET] + (a + b))[1] == a[0]
  {}

  /** A value whose text begins with n brackets has at least n - 1 arrays around its innermost one. */
  lemma {:induction false} OpensDeep(t: Tree, rest: bytes, n: nat, limit: int)
    requires TreeOk(t) && Within(t, limit) && Begins(t, rest, n) && limit >= 0
    ensures n <= limit + 1
    decreases t
  {
    if n >= 2 {
      ArrayFirst(t, rest, n);
      var behind := OpensInner(t, rest, n);
      OpensInside(t, limit);
      OpensDeep(t.items.item.tree, behind, n - 1, limit - 1);
    }
  }

  /** Behind the first bracket, the text of the first item begins with the others. */
  lemma OpensInner(t: Tree, rest: bytes, n: nat) returns (behind: bytes)
    requires TreeOk(t) && t.ArrayOf? && n >= 2 && Begins(t, rest, n)
    ensures Begins(t.items.item.tree, behind, n - 1)
  {
    var first, after := FirstItem(t.items);
    behind := after + [CLOSE_BRACKET] + rest;
    var inner := Spell(first.tree) + behind;
    Regrouped(first.before, Spell(first.tree), after, rest);
    SpaceFirst(first.before);
    BehindBracket(first.before, inner);
    assert first.before == [] && [] + inner == inner;
    OpensTail(inner, n);
  }

  lemma Regrouped(before: bytes, text: bytes, after: bytes, rest: bytes)
    ensures [OPEN_BRACKET] + (before + (text + after)) + [CLOSE_BRACKET] + rest ==
            [OPEN_BRACKET] + (before + (text + (after + [CLOSE_BRACKET] + rest)))
  {}

  lemma OpensTail(inner: bytes, n: nat)
    requires n >= 1 && Opens([OPEN_BRACKET] + inner, n)
    ensures Opens(inner, n - 1)
  {
    forall i | 0 <= i < n - 1 ensures inner[i] == 0x5B { assert ([OPEN_BRACKET] + inner)[i + 1] == inner[i]; }
  }

  lemma FirstItem(items: Items) returns (first: Spaced, behind: bytes)
    ensures first == items.item && SpellItems(items) == first.before + (Spell(first.tree) + behind)
  {
    first := items.item;
    match items {
      case LastItem(v) => behind := v.after;
      case MoreItems(v, rest) => behind := v.after + [COMMA] + SpellItems(rest);
    }
  }

  lemma OpensInside(t: Tree, limit: int)
    requires t.ArrayOf? && TreeOk(t) && Within(t, limit)
    ensures var first := t.items.item; TreeOk(first.tree) && Within(first.tree, limit - 1) && limit >= 1
  {}

  lemma AsciiBrackets(n: nat)
    ensures Valid(Brackets(n))
  {
    ValidAscii(Brackets(n));
  }

  /** Arrays may be nested 65 deep and no deeper: the outermost value is at depth 0, and depth 64 is the last one allowed. */
  lemma NestingExactly(n: nat)
    requires n > 0
    ensures JsonParser.Parse(Brackets(n)).Ok? <==> n <= 65
  {
    var text := Brackets(n);
    NestedOk(n, 64);
    if n <= 65 {
      var d := Spaced([], Nested(n), []);
      assert SpellDocument(d) == [] + text + [] == text;
      AsciiBrackets(n);
      DocumentParses(d);
    }
    if JsonParser.Parse(text).Ok? {
      var d := ParsedIsDocument(text);
      SpaceFirst(d.before);
      Associate(d.before, Spell(d.tree), d.after);
      PrefixKept(d.before, Spell(d.tree) + d.after);
      assert d.before == [];
      assert text == [] + Spell(d.tree) + d.after == Spell(d.tree) + d.after;
      OpensDeep(d.tree, d.after, n, 64);
    }
  }
}
