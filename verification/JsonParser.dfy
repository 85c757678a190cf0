/** The recursive-descent parser, first as functions on the remaining text, then as the class that moves a position. */
module JsonParser {
  import opened Bytes
  import opened Utf8
  import opened Wrappers
  import opened Json

  datatype JsonError =
    | InvalidUtf8 | UnexpectedData | ExpectedString | ControlCharacter | UnterminatedEscape
    | InvalidUnicodeEscape | MissingLowSurrogate | InvalidLowSurrogate | UnexpectedLowSurrogate
    | InvalidEscape | UnterminatedString | InvalidNumber | InvalidFraction | InvalidExponent
    | NestingLimitExceeded | MissingValue | ExpectedColon | DuplicateMember
    | ExpectedCommaOrBrace | ExpectedCommaOrBracket

  /** A piece of the text read, and the text that remains. */
  datatype Parsed<+T> = Read(value: T, rest: bytes) | Failed(error: JsonError)

  function SkipSpace(s: bytes): (r: bytes)
    ensures |r| <= |s|
    ensures r != [] ==> !IsSpace(r[0])
  {
    if s != [] && IsSpace(s[0]) then SkipSpace(s[1..]) else s
  }

  function SkipDigits(s: bytes): (r: bytes)
    ensures |r| <= |s|
  {
    if s != [] && IsDigit(s[0]) then SkipDigits(s[1..]) else s
  }

  /** After backslash u: four digits, or a surrogate pair. */
  function ParseUnicode(s: bytes): (r: Parsed<int>)
    ensures r.Read? ==> |r.rest| < |s| && 0 <= r.value <= 0x10FFFF && !(0xD800 <= r.value <= 0xDFFF)
  {
    if !IsHex4(s) then Failed(InvalidUnicodeEscape)
    else
      var first := Hex4Value(s);
      if 0xD800 <= first <= 0xDBFF then
        if !([BACKSLASH, LETTER_U] <= s[4..]) then Failed(MissingLowSurrogate)
        else if !IsHex4(s[6..]) || !(0xDC00 <= Hex4Value(s[6..]) <= 0xDFFF) then Failed(InvalidLowSurrogate)
        else Read(0x10000 + (first - 0xD800) * 1024 + (Hex4Value(s[6..]) - 0xDC00), s[10..])
      else if 0xDC00 <= first <= 0xDFFF then Failed(UnexpectedLowSurrogate)
      else Read(first, s[4..])
  }

  /** The characters of a string and its closing quote, appended to out. */
  function ParseCharacters(s: bytes, out: bytes): (r: Parsed<bytes>)
    ensures r.Read? ==> |r.rest| < |s|
    decreases |s|
  {
    if s == [] then Failed(UnterminatedString)
    else if s[0] == QUOTE then Read(out, s[1..])
    else if s[0] < 0x20 then Failed(ControlCharacter)
    else if s[0] != BACKSLASH then ParseCharacters(s[1..], out + [s[0]])
    else if |s| == 1 then Failed(UnterminatedEscape)
    else if ShortEscape(s[1]) >= 0 then ParseCharacters(s[2..], out + [ShortEscape(s[1])])
    else if s[1] == LETTER_U then
      match ParseUnicode(s[2..])
      case Failed(e) => Failed(e)
      case Read(v, rest) => ParseCharacters(rest, out + Encode(v))
    else Failed(InvalidEscape)
  }

  function ParseString(s: bytes): (r: Parsed<bytes>)
    ensures r.Read? ==> |r.rest| < |s|
  {
    if s == [] || s[0] != QUOTE then Failed(ExpectedString) else ParseCharacters(s[1..], [])
  }

  function ParseInteger(s: bytes): (r: Parsed<()>)
    ensures r.Read? ==> |r.rest| < |s|
  {
    if s == [] then Failed(InvalidNumber)
    else if s[0] == ZERO then Read((), s[1..])
    else if !IsDigit(s[0]) then Failed(InvalidNumber)
    else Read((), SkipDigits(s[1..]))
  }

  function ParseFraction(s: bytes): (r: Parsed<()>)
    ensures r.Read? ==> |r.rest| <= |s|
  {
    if s == [] || s[0] != 0x2E then Read((), s)
    else if SkipDigits(s[1..]) == s[1..] then Failed(InvalidFraction)
    else Read((), SkipDigits(s[1..]))
  }

  function ParseExponent(s: bytes): (r: Parsed<()>)
    ensures r.Read? ==> |r.rest| <= |s|
  {
    if s == [] || (s[0] != 0x65 && s[0] != 0x45) then Read((), s)
    else
      var digits := if |s| > 1 && (s[1] == 0x2B || s[1] == MINUS) then s[2..] else s[1..];
      if SkipDigits(digits) == digits then Failed(InvalidExponent) else Read((), SkipDigits(digits))
  }

  /** Reads past a number. */
  function ParseNumberEnd(s: bytes): (r: Parsed<()>)
    ensures r.Read? ==> |r.rest| < |s|
  {
    match ParseInteger(if s != [] && s[0] == MINUS then s[1..] else s)
    case Failed(e) => Failed(e)
    case Read(_, s1) =>
      match ParseFraction(s1)
      case Failed(e) => Failed(e)
      case Read(_, s2) => ParseExponent(s2)
  }

  function ParseNumber(s: bytes): (r: Parsed<Json>)
    ensures r.Read? ==> |r.rest| < |s|
  {
    match ParseNumberEnd(s)
    case Failed(e) => Failed(e)
    case Read(_, rest) => Read(Number(s[..|s| - |rest|]), rest)
  }

  function ParseScalar(s: bytes): (r: Parsed<Json>)
    ensures r.Read? ==> |r.rest| < |s|
  {
    if Ascii("true") <= s then Read(Bool(true), s[4..])
    else if Ascii("false") <= s then Read(Bool(false), s[5..])
    else if Ascii("null") <= s then Read(Null, s[4..])
    else ParseNumber(s)
  }

  function ParseValue(s: bytes, depth: nat): (r: Parsed<Json>)
    ensures r.Read? ==> |r.rest| < |s|
    decreases |s|, 0
  {
    if depth > MAXIMUM_DEPTH then Failed(NestingLimitExceeded)
    else
      var t := SkipSpace(s);
      if t == [] then Failed(MissingValue)
      else if t[0] == QUOTE then
        match ParseString(t) { case Failed(e) => Failed(e) case Read(v, rest) => Read(Text(v), rest) }
      else if t[0] == OPEN_BRACE then
        var u := SkipSpace(t[1..]);
        if u != [] && u[0] == CLOSE_BRACE then Read(Object(map[]), u[1..]) else ParseMembers(u, depth, map[])
      else if t[0] == OPEN_BRACKET then
        var u := SkipSpace(t[1..]);
        if u != [] && u[0] == CLOSE_BRACKET then Read(Array([]), u[1..]) else ParseItems(u, depth, [])
      else ParseScalar(t)
  }

  datatype Separator = Closed(rest: bytes) | More(rest: bytes) | Missing

  datatype Next = Close | Comma | Other

  /** The closing byte, or a comma and the spaces behind it. */
  function ParseSeparator(s: bytes, close: Byte): (r: Separator)
    ensures !r.Missing? ==> |r.rest| < |s|
  {
    var t := SkipSpace(s);
    if t != [] && t[0] == close then Closed(t[1..])
    else if t == [] || t[0] != COMMA then Missing
    else More(SkipSpace(t[1..]))
  }

  /** A member's key and the colon behind it. */
  function ParseKey(s: bytes): (r: Parsed<bytes>)
    ensures r.Read? ==> |r.rest| < |s|
  {
    match ParseString(s)
    case Failed(e) => Failed(e)
    case Read(key, s1) =>
      var s2 := SkipSpace(s1);
      if s2 == [] || s2[0] != COLON then Failed(ExpectedColon) else Read(key, s2[1..])
  }

  /** The loop over object members, given those already read. */
  function ParseMembers(s: bytes, depth: nat, members: map<bytes, Json>): (r: Parsed<Json>)
    ensures r.Read? ==> |r.rest| < |s|
    decreases |s|, 1
  {
    match ParseKey(s)
    case Failed(e) => Failed(e)
    case Read(key, s1) =>
      match ParseValue(s1, depth + 1)
      case Failed(e) => Failed(e)
      case Read(child, s2) =>
        if key in members then Failed(DuplicateMember)
        else
          var more := members[key := child];
          match ParseSeparator(s2, CLOSE_BRACE)
          case Closed(s3) => Read(Object(more), s3)
          case More(s3) => ParseMembers(s3, depth, more)
          case Missing => Failed(ExpectedCommaOrBrace)
  }

  /** The loop over array items, given those already read. */
  function ParseItems(s: bytes, depth: nat, items: seq<Json>): (r: Parsed<Json>)
    ensures r.Read? ==> |r.rest| < |s|
    decreases |s|, 1
  {
    match ParseValue(s, depth + 1)
    case Failed(e) => Failed(e)
    case Read(child, s1) =>
      var more := items + [child];
      match ParseSeparator(s1, CLOSE_BRACKET)
      case Closed(s2) => Read(Array(more), s2)
      case More(s2) => ParseItems(s2, depth, more)
      case Missing => Failed(ExpectedCommaOrBracket)
  }

  function Parse(text: bytes): Outcome<Json, JsonError> {
    if !Valid(text) then Err(InvalidUtf8)
    else
      match ParseValue(SkipSpace(text), 0)
      case Failed(e) => Err(e)
      case Read(value, rest) => if SkipSpace(rest) == [] then Ok(value) else Err(UnexpectedData)
  }

  /** The parser object: a fixed input and a position in it. */
  class Parser {
    const input: bytes
    var position: nat

    constructor (input: bytes)
      ensures this.input == input && position == 0
    {
      this.input := input;
      position := 0;
    }

    ghost function Rest(): bytes
      requires position <= |input|
      reads this
    {
      input[position..]
    }

    /** The parser stopped where the function did, with the same value or error. */
    ghost predicate Agrees<T>(r: Outcome<T, JsonError>, p: Parsed<T>)
      reads this
    {
      match p
      case Failed(e) => r == Err(e)
      case Read(v, rest) => r == Ok(v) && position <= |input| && Rest() == rest
    }

    method Skip()
      requires position <= |input|
      modifies this
      ensures position <= |input| && Rest() == SkipSpace(old(Rest()))
      ensures old(position) <= position
    {
      while position < |input| && IsSpace(input[position])
        invariant old(position) <= position <= |input|
        invariant SkipSpace(Rest()) == SkipSpace(old(Rest()))
      {
        assert Rest()[1..] == input[position + 1..];
        position := position + 1;
      }
    }

    method Consume(token: bytes) returns (found: bool)
      requires position <= |input|
      modifies this
      ensures found == (token <= old(Rest()))
      ensures position == (if found then old(position) + |token| else old(position)) <= |input|
    {
      found := position + |token| <= |input| && input[position..position + |token|] == token;
      if position + |token| <= |input| {
        assert Rest()[..|token|] == input[position..position + |token|];
      }
      if found { position := position + |token|; }
    }

    method Hex4() returns (ok: bool, value: nat)
      requires position <= |input|
      modifies this
      ensures ok == IsHex4(old(Rest()))
      ensures ok ==> value == Hex4Value(old(Rest())) && position == old(position) + 4 <= |input|
    {
      value := 0;
      if position + 4 > |input| { return false, 0; }
      ghost var s := Rest();
      var i := 0;
      while i < 4
        invariant 0 <= i <= 4
        invariant position == old(position) + i
        invariant forall k | 0 <= k < i :: HexValue(s[k]) >= 0
        invariant value == (if i == 0 then 0 else if i == 1 then HexValue(s[0])
                            else if i == 2 then HexValue(s[0]) * 16 + HexValue(s[1])
                            else if i == 3 then (HexValue(s[0]) * 16 + HexValue(s[1])) * 16 + HexValue(s[2])
                            else Hex4Value(s))
      {
        var c := input[position];
        assert c == s[i];
        position := position + 1;
        if HexValue(c) < 0 { return false, 0; }
        value := value * 16 + HexValue(c);
        i := i + 1;
      }
      return true, value;
    }

    /** The case of parse_string for backslash u. */
    method UnicodeEscape() returns (r: Outcome<int, JsonError>)
      requires position <= |input|
      modifies this
      ensures Agrees(r, ParseUnicode(old(Rest())))
    {
      ghost var s := Rest();
      var ok, first := Hex4();
      if !ok { return Err(InvalidUnicodeEscape); }
      assert Rest() == s[4..];
      if 0xD800 <= first <= 0xDBFF {
        var found := Consume([BACKSLASH, LETTER_U]);
        if !found { return Err(MissingLowSurrogate); }
        assert Rest() == s[6..];
        var ok2, second := Hex4();
        if !ok2 || second < 0xDC00 || second > 0xDFFF { return Err(InvalidLowSurrogate); }
        assert Rest() == s[10..];
        first := 0x10000 + (first - 0xD800) * 1024 + (second - 0xDC00);
      } else if 0xDC00 <= first <= 0xDFFF {
        return Err(UnexpectedLowSurrogate);
      }
      return Ok(first);
    }

    method StringToken() returns (r: Outcome<bytes, JsonError>)
      requires position <= |input|
      modifies this
      ensures Agrees(r, ParseString(old(Rest())))
    {
      if position >= |input| || input[position] != QUOTE { return Err(ExpectedString); }
      ghost var s := Rest()[1..];
      position := position + 1;
      assert Rest() == s;
      var out: bytes := [];
      while position < |input|
        invariant position <= |input|
        invariant ParseCharacters(Rest(), out) == ParseCharacters(s, [])
        decreases |input| - position
      {
        ghost var t := Rest();
        var c := input[position];
        position := position + 1;
        assert Rest() == t[1..];
        if c == QUOTE { return Ok(out); }
        if c < 0x20 { return Err(ControlCharacter); }
        if c != BACKSLASH {
          out := out + [c];
          continue;
        }
        if position >= |input| { return Err(UnterminatedEscape); }
        var escaped := input[position];
        position := position + 1;
        assert Rest() == t[2..];
        if ShortEscape(escaped) >= 0 {
          out := out + [ShortEscape(escaped)];
        } else if escaped == LETTER_U {
          var v := UnicodeEscape();
          if v.Err? { return Err(v.error); }
          out := out + Encode(v.value);
        } else {
          return Err(InvalidEscape);
        }
      }
      return Err(UnterminatedString);
    }

    method Digits()
      requires position <= |input|
      modifies this
      ensures old(position) <= position <= |input| && Rest() == SkipDigits(old(Rest()))
    {
      while position < |input| && IsDigit(input[position])
        invariant old(position) <= position <= |input|
        invariant SkipDigits(Rest()) == SkipDigits(old(Rest()))
      {
        assert Rest()[1..] == input[position + 1..];
        position := position + 1;
      }
    }

    method IntegerPart() returns (r: Outcome<(), JsonError>)
      requires position <= |input|
      modifies this
      ensures Agrees(r, ParseInteger(old(Rest())))
    {
      if position >= |input| { return Err(InvalidNumber); }
      ghost var s := Rest();
      var c := input[position];
      if c != ZERO && !IsDigit(c) { return Err(InvalidNumber); }
      position := position + 1;
      assert Rest() == s[1..];
      if c != ZERO { Digits(); }
      return Ok(());
    }

    method FractionPart() returns (r: Outcome<(), JsonError>)
      requires position <= |input|
      modifies this
      ensures Agrees(r, ParseFraction(old(Rest())))
    {
      if position < |input| && input[position] == 0x2E {
        ghost var s := Rest();
        position := position + 1;
        assert Rest() == s[1..];
        var digits := position;
        Digits();
        if digits == position { return Err(InvalidFraction); }
        assert |Rest()| < |s[1..]|;
      }
      return Ok(());
    }

    method ExponentPart() returns (r: Outcome<(), JsonError>)
      requires position <= |input|
      modifies this
      ensures Agrees(r, ParseExponent(old(Rest())))
    {
      if position < |input| && (input[position] == 0x65 || input[position] == 0x45) {
        ghost var s := Rest();
        position := position + 1;
        assert Rest() == s[1..];
        if position < |input| && (input[position] == 0x2B || input[position] == MINUS) {
          position := position + 1;
          assert Rest() == s[2..];
        }
        ghost var t := Rest();
        var digits := position;
        Digits();
        if digits == position { return Err(InvalidExponent); }
        assert |Rest()| < |t|;
      }
      return Ok(());
    }

    method SkipMinus()
      requires position <= |input|
      modifies this
      ensures position <= |input|
      ensures Rest() == if old(Rest()) != [] && old(Rest())[0] == MINUS then old(Rest())[1..] else old(Rest())
    {
      ghost var s := Rest();
      if position < |input| && input[position] == MINUS {
        position := position + 1;
        assert Rest() == s[1..];
      }
    }

    /** Moves behind the number, if there is one. */
    method NumberEnd() returns (r: Outcome<(), JsonError>)
      requires position <= |input|
      modifies this
      ensures Agrees(r, ParseNumberEnd(old(Rest())))
    {
      SkipMinus();
      r := IntegerPart();
      if r.Err? { return; }
      r := FractionPart();
      if r.Err? { return; }
      r := ExponentPart();
    }

    method NumberToken() returns (r: Outcome<Json, JsonError>)
      requires position <= |input|
      modifies this
      ensures Agrees(r, ParseNumber(old(Rest())))
    {
      ghost var s := Rest();
      var begin := position;
      var end := NumberEnd();
      if end.Err? { return Err(end.error); }
      assert |s| - |Rest()| == position - begin;
      assert input[begin..position] == s[..position - begin];
      return Ok(Number(input[begin..position]));
    }

    method Value(depth: nat) returns (r: Outcome<Json, JsonError>)
      requires position <= |input|
      modifies this
      ensures Agrees(r, ParseValue(old(Rest()), depth))
      decreases |input| - position, 1
    {
      if depth > MAXIMUM_DEPTH { return Err(NestingLimitExceeded); }
      Skip();
      if position >= |input| { return Err(MissingValue); }
      ghost var t := Rest();
      var c := input[position];
      if c == QUOTE {
        var text := StringToken();
        if text.Err? { return Err(text.error); }
        return Ok(Text(text.value));
      }
      if c == OPEN_BRACE {
        position := position + 1;
        assert Rest() == t[1..];
        Skip();
        ghost var u := Rest();
        if position < |input| && input[position] == CLOSE_BRACE {
          position := position + 1;
          assert Rest() == u[1..];
          return Ok(Object(map[]));
        }
        r := Members(depth);
        return;
      }
      if c == OPEN_BRACKET {
        position := position + 1;
        assert Rest() == t[1..];
        Skip();
        ghost var u := Rest();
        if position < |input| && input[position] == CLOSE_BRACKET {
          position := position + 1;
          assert Rest() == u[1..];
          return Ok(Array([]));
        }
        r := Items(depth);
        return;
      }
      r := Scalar();
    }

    method Scalar() returns (r: Outcome<Json, JsonError>)
      requires position <= |input|
      modifies this
      ensures Agrees(r, ParseScalar(old(Rest())))
    {
      ghost var s := Rest();
      var found := Consume(Ascii("true"));
      if found {
        assert Rest() == s[4..];
        return Ok(Bool(true));
      }
      found := Consume(Ascii("false"));
      if found {
        assert Rest() == s[5..];
        return Ok(Bool(false));
      }
      found := Consume(Ascii("null"));
      if found {
        assert Rest() == s[4..];
        return Ok(Null);
      }
      r := NumberToken();
    }

    method Key() returns (r: Outcome<bytes, JsonError>)
      requires position <= |input|
      modifies this
      ensures Agrees(r, ParseKey(old(Rest())))
    {
      r := StringToken();
      if r.Ok? {
        Skip();
        ghost var s := Rest();
        if position >= |input| || input[position] != COLON { return Err(ExpectedColon); }
        position := position + 1;
        assert Rest() == s[1..];
      }
    }

    /** The member loop of parse_value. */
    method Members(depth: nat) returns (r: Outcome<Json, JsonError>)
      requires position <= |input|
      modifies this
      ensures Agrees(r, ParseMembers(old(Rest()), depth, map[]))
      decreases |input| - position, 2
    {
      var members: map<bytes, Json> := map[];
      while true
        invariant old(position) <= position <= |input|
        invariant ParseMembers(Rest(), depth, members) == ParseMembers(old(Rest()), depth, map[])
        decreases |input| - position
      {
        ghost var s := Rest();
        var key := Key();
        if key.Err? { return Err(key.error); }
        var child := Value(depth + 1);
        if child.Err? { return Err(child.error); }
        if key.value in members { return Err(DuplicateMember); }
        members := members[key.value := child.value];
        var separator := NextSeparator(CLOSE_BRACE);
        if separator.Other? { return Err(ExpectedCommaOrBrace); }
        if separator.Close? { return Ok(Object(members)); }
      }
    }

    /** What follows a member or an item. */
    method NextSeparator(close: Byte) returns (r: Next)
      requires position <= |input|
      modifies this
      ensures position <= |input|
      ensures match ParseSeparator(old(Rest()), close)
              case Closed(rest) => r.Close? && Rest() == rest
              case More(rest) => r.Comma? && Rest() == rest
              case Missing => r.Other?
    {
      Skip();
      ghost var s := Rest();
      if position < |input| && input[position] == close {
        position := position + 1;
        assert Rest() == s[1..];
        return Close;
      }
      if position >= |input| || input[position] != COMMA { return Other; }
      position := position + 1;
      assert Rest() == s[1..];
      Skip();
      return Comma;
    }

    /** The item loop of parse_value. */
    method Items(depth: nat) returns (r: Outcome<Json, JsonError>)
      requires position <= |input|
      modifies this
      ensures Agrees(r, ParseItems(old(Rest()), depth, []))
      decreases |input| - position, 2
    {
      var items: seq<Json> := [];
      while true
        invariant old(position) <= position <= |input|
        invariant ParseItems(Rest(), depth, items) == ParseItems(old(Rest()), depth, [])
        decreases |input| - position
      {
        ghost var s := Rest();
        var child := Value(depth + 1);
        if child.Err? { return Err(child.error); }
        items := items + [child.value];
        var separator := NextSeparator(CLOSE_BRACKET);
        if separator.Other? { return Err(ExpectedCommaOrBracket); }
        if separator.Close? { return Ok(Array(items)); }
      }
    }

    /** The entry point. */
    method Run() returns (r: Outcome<Json, JsonError>)
      requires position == 0
      modifies this
      ensures r == Parse(input)
    {
      var valid := ValidUtf8(input);
      ValidExactly(input);
      if !valid { return Err(InvalidUtf8); }
      assert Rest() == input;
      Skip();
      var value := Value(0);
      if value.Err? { return Err(value.error); }
      Skip();
      if position != |input| { return Err(UnexpectedData); }
      return Ok(value.value);
    }
  }
}
