/** What the writer emits, the validator accepts. */
module WriterValidator {
  import opened Bytes
  import opened Utf8
  import opened Wrappers
  import opened Json
  import opened JsonText
  import JsonParser
  import opened JsonRoundTrip
  import opened Record

  lemma {:induction false} PrintableDeeper(j: Json, n: int, m: int)
    requires Printable(j, n) && n <= m
    ensures Printable(j, m)
    decreases j
  {
    match j {
      case Array(items) => forall x | x in items ensures Printable(x, m - 1) { PrintableDeeper(x, n - 1, m - 1); }
      case Object(o) => forall k | k in o ensures Printable(o[k], m - 1) { PrintableDeeper(o[k], n - 1, m - 1); }
      case _ =>
    }
  }

  // Canonical text has no control characters.

  ghost predicate Visible(s: bytes) { forall i | 0 <= i < |s| :: s[i] >= 0x20 }

  lemma {:induction false} EscapedVisible(s: bytes)
    ensures Visible(Escaped(s))
  {
    if s != [] { EscapedVisible(s[1..]); }
  }

  lemma LexemeVisible(n: NumberText)
    requires NumberOk(n)
    ensures Visible(SpellNumber(n))
  {
    assert forall i | 0 <= i < |n.integer| :: IsDigitAt(n.integer, i);
    assert forall i | 0 <= i < |n.fraction| :: IsDigitAt(n.fraction, i);
    var a := (if n.minus then [MINUS] else []) + n.integer;
    var b := if n.fraction == [] then [] else [0x2E] + n.fraction;
    assert Visible(a) && Visible(b);
    if n.exponent.Exponent? {
      assert forall i | 0 <= i < |n.exponent.digits| :: IsDigitAt(n.exponent.digits, i);
    }
    assert Visible(SpellExponent(n.exponent));
  }

  predicate IsDigitAt(s: bytes, i: nat)
    requires i < |s|
  {
    IsDigit(s[i])
  }

  lemma NumberVisible(l: bytes)
    requires exists number :: NumberOk(number) && SpellNumber(number) == l
    ensures Visible(l)
  {
    var number :| NumberOk(number) && SpellNumber(number) == l;
    LexemeVisible(number);
  }

  lemma {:induction false} PrintVisible(j: Json, n: int)
    requires Printable(j, n)
    ensures Visible(Print(j))
    decreases j, 1
  {
    match j {
      case Text(t) => QuotedVisible(t);
      case Number(l) => NumberVisible(l);
      case Array(items) =>
        ListVisible(items, n - 1);
        VisibleBetween(0x5B, PrintList(items), 0x5D);
      case Object(m) =>
        KeysVisible(j, InOrder(m.Keys), n - 1);
        VisibleBetween(0x7B, PrintKeys(j, InOrder(m.Keys)), 0x7D);
      case _ => WordsVisible();
    }
  }

  lemma WordsVisible()
    ensures Visible(Ascii("null")) && Visible(Ascii("true")) && Visible(Ascii("false"))
  {}

  lemma QuotedVisible(t: bytes)
    ensures Visible(Quoted(t))
  {
    EscapedVisible(t);
  }

  lemma VisibleBetween(open: Byte, body: bytes, close: Byte)
    requires Visible(body) && open >= 0x20 && close >= 0x20
    ensures Visible([open] + body + [close])
  {}

  lemma {:induction false} ListVisible(items: seq<Json>, n: int)
    requires forall x | x in items :: Printable(x, n)
    ensures Visible(PrintList(items)) && Visible(PrintItems(items))
    decreases items, 0
  {
    if items != [] {
      PrintVisible(items[0], n);
      ListVisible(items[1..], n);
    }
  }

  lemma {:induction false} KeysVisible(j: Json, keys: seq<bytes>, n: int)
    requires j.Object? && forall k | k in keys :: k in j.members && Printable(j.members[k], n)
    ensures Visible(PrintKeys(j, keys)) && Visible(PrintMembers(j, keys))
    decreases j, 0, |keys|
  {
    if keys != [] {
      EscapedVisible(keys[0]);
      PrintVisible(j.members[keys[0]], n);
      assert Visible(PrintMember(j, keys[0]));
      KeysVisible(j, keys[1..], n);
    }
  }

  // The members of the logical object.

  ghost predicate PrintableFields(m: Fields) {
    forall k | k in m :: Valid(k) && Printable(m[k], MAXIMUM_DEPTH - 1)
  }

  lemma AddField(m: Fields, key: bytes, value: Json)
    requires PrintableFields(m) && Valid(key) && Printable(value, MAXIMUM_DEPTH - 1)
    ensures PrintableFields(m[key := value])
  {}

  lemma {:induction false} CopiedPrintable(logical: Fields, server: Fields, keys: seq<bytes>)
    requires PrintableFields(logical) && PrintableFields(server)
    ensures PrintableFields(Copied(logical, server, keys))
    decreases |keys|
  {
    if keys != [] {
      if keys[0] in server { AddField(logical, keys[0], server[keys[0]]); }
      CopiedPrintable(if keys[0] in server then logical[keys[0] := server[keys[0]]] else logical, server, keys[1..]);
    }
  }

  lemma {:induction false} CopiedKeys(logical: Fields, server: Fields, keys: seq<bytes>)
    ensures forall k | k in Copied(logical, server, keys) :: k in logical || k in keys
    ensures forall k | k in logical && k !in keys :: k in Copied(logical, server, keys) && Copied(logical, server, keys)[k] == logical[k]
    decreases |keys|
  {
    if keys != [] {
      CopiedKeys(if keys[0] in server then logical[keys[0] := server[keys[0]]] else logical, server, keys[1..]);
    }
  }

  lemma KeysDiffer()
    ensures OBSERVED_AT != CANONICAL_SHA256
    ensures OBSERVED_AT !in LOGICAL_KEYS && CANONICAL_SHA256 !in LOGICAL_KEYS
  {
    assert OBSERVED_AT[0] == 0x6F && DESCRIPTION[0] == 0x64;
  }

  lemma IdentityKeysDiffer()
    ensures SERVER_IDENTIFIER !in OPTIONAL_KEYS && SERVER_VERSION !in OPTIONAL_KEYS
    ensures ORIGINAL != SERVER_IDENTIFIER && ORIGINAL != SERVER_VERSION && SERVER_IDENTIFIER != SERVER_VERSION
  {}

  lemma NameIsText(name: bytes)
    requires ValidServerName(name)
    ensures Valid(name) && forall i | 0 <= i < |name| :: name[i] > 0x20
  {
    var slash :| 0 < slash < |name| - 1 && SlashedAt(name, slash);
    forall i | 0 <= i < |name| ensures 0x20 < name[i] < 0x80 {
      if i != slash { assert NameByte(name[i], i > slash); }
    }
    ValidAscii(name);
  }

  lemma TimestampIsText(s: bytes)
    requires ValidTimestamp(s)
    ensures Valid(s)
  {
    forall i | 0 <= i < |s| ensures s[i] < 0x80 {
      if i < 19 && i != 4 && i != 7 && i != 10 && i != 13 && i != 16 { assert IsDigit(s[i]); }
    }
    ValidAscii(s);
  }

  lemma AsciiIsText(s: string)
    ensures Valid(Ascii(s))
  {
    ValidAscii(Ascii(s));
  }

  lemma OneIsLexeme()
    ensures IsLexeme(Ascii("1"))
  {
    var n := NumberText(false, Ascii("1"), [], NoExponent);
    assert NumberOk(n);
    assert SpellNumber(n) == Ascii("1");
  }

  /** The entry's depth inside a page leaves room for the record around it. */
  const ENTRY_DEPTH := MAXIMUM_DEPTH - 2

  lemma ServerPrintable(entry: Json)
    requires Identity(entry).Ok? && Printable(entry, ENTRY_DEPTH)
    ensures PrintableFields(entry.members[SERVER].members)
    ensures Valid(Identity(entry).value.1)
  {
    var s := entry.members[SERVER];
    assert Printable(s, ENTRY_DEPTH - 1);
    forall k | k in s.members ensures Valid(k) && Printable(s.members[k], MAXIMUM_DEPTH - 1) {
      PrintableDeeper(s.members[k], ENTRY_DEPTH - 2, MAXIMUM_DEPTH - 1);
    }
    assert Printable(s.members[VERSION], ENTRY_DEPTH - 2);
  }

  lemma BasePrintable(name: bytes, version: bytes)
    requires Valid(name) && Valid(version)
    ensures PrintableFields(Base(name, version))
  {
    OneIsLexeme();
    AsciiIsText("official-mcp");
    AsciiIsText("record_version");
    AsciiIsText("registry");
    AsciiIsText("server_identifier");
    AsciiIsText("server_version");
    AddField(map[], RECORD_VERSION, Number(Ascii("1")));
    var m := map[RECORD_VERSION := Number(Ascii("1"))];
    AddField(m, REGISTRY, Text(Ascii("official-mcp")));
    m := m[REGISTRY := Text(Ascii("official-mcp"))];
    AddField(m, SERVER_IDENTIFIER, Text(name));
    AddField(m[SERVER_IDENTIFIER := Text(name)], SERVER_VERSION, Text(version));
  }

  lemma LogicalPrintable(entry: Json)
    requires Identity(entry).Ok? && Printable(entry, ENTRY_DEPTH)
    ensures PrintableFields(Logical(entry))
  {
    var (name, version) := Identity(entry).value;
    NameIsText(name);
    ServerPrintable(entry);
    BasePrintable(name, version);
    CopiedPrintable(Base(name, version), entry.members[SERVER].members, OPTIONAL_KEYS);
    PrintableDeeper(entry, ENTRY_DEPTH, MAXIMUM_DEPTH - 1);
    AsciiIsText("original");
    AddField(Copied(Base(name, version), entry.members[SERVER].members, OPTIONAL_KEYS), ORIGINAL, entry);
  }

  lemma LogicalFields(entry: Json)
    requires Identity(entry).Ok?
    ensures var m := Logical(entry);
            && OBSERVED_AT !in m && CANONICAL_SHA256 !in m
            && SERVER_IDENTIFIER in m && m[SERVER_IDENTIFIER] == Text(Identity(entry).value.0)
            && SERVER_VERSION in m && m[SERVER_VERSION] == Text(Identity(entry).value.1)
  {
    var (name, version) := Identity(entry).value;
    var base := Base(name, version);
    CopiedKeys(base, entry.members[SERVER].members, OPTIONAL_KEYS);
    IdentityKeysDiffer();
    KeysDiffer();
    assert forall k | k in base :: k in LOGICAL_KEYS;
    assert forall k | k in OPTIONAL_KEYS :: k in LOGICAL_KEYS;
    assert ORIGINAL in LOGICAL_KEYS;
    assert forall k | k in Logical(entry) :: k in LOGICAL_KEYS;
  }

  lemma CompletePrintable(entry: Json, digest: Digest)
    requires Identity(entry).Ok? && Printable(entry, ENTRY_DEPTH)
    ensures PrintableFields(Complete(entry, digest))
  {
    LogicalPrintable(entry);
    AsciiIsText("observed_at");
    AsciiIsText("canonical_sha256");
    TimestampIsText(StableObservedAt(entry.members));
    ValidAscii(digest);
    var observed := Text(StableObservedAt(entry.members));
    AddField(Logical(entry), OBSERVED_AT, observed);
    AddField(Logical(entry)[OBSERVED_AT := observed], CANONICAL_SHA256, Text(digest));
  }

  lemma CompleteFields(entry: Json, digest: Digest)
    requires Identity(entry).Ok?
    ensures var m := Complete(entry, digest);
            && StringMember(m, SERVER_IDENTIFIER) == Some(Identity(entry).value.0)
            && StringMember(m, SERVER_VERSION) == Some(Identity(entry).value.1)
            && StringMember(m, OBSERVED_AT) == Some(StableObservedAt(entry.members))
            && StringMember(m, CANONICAL_SHA256) == Some(digest)
            && m - {OBSERVED_AT, CANONICAL_SHA256} == Logical(entry)
  {
    LogicalFields(entry);
    KeysDiffer();
    assert SERVER_IDENTIFIER in LOGICAL_KEYS && SERVER_VERSION in LOGICAL_KEYS;
    assert Complete(entry, digest) - {OBSERVED_AT, CANONICAL_SHA256} == Logical(entry);
  }

  /** The line written for an entry, without its newline. */
  ghost function LineOf(entry: Json, digest: Digest): bytes
    requires Identity(entry).Ok?
  {
    Print(Object(Complete(entry, digest)))
  }

  lemma LineParses(entry: Json, digest: Digest)
    requires Identity(entry).Ok? && Printable(entry, ENTRY_DEPTH)
    ensures JsonParser.Parse(LineOf(entry, digest)) == Ok(Object(Complete(entry, digest)))
    ensures NEWLINE !in LineOf(entry, digest) && LineOf(entry, digest) != []
  {
    var j := Object(Complete(entry, digest));
    CompletePrintable(entry, digest);
    ParsePrint(j);
    PrintVisible(j, MAXIMUM_DEPTH);
  }

  lemma LineAccepted(entry: Json, sha: Sha, digest: Digest)
    requires Identity(entry).Ok? && Printable(entry, ENTRY_DEPTH)
    requires digest == sha(Print(Object(Logical(entry))))
    ensures LineIdentity(LineOf(entry, digest), sha) ==
            (if |LineOf(entry, digest)| > MAXIMUM_LINE_BYTES then Err(OversizedLine)
             else Ok(Identity(entry).value.0 + [NEWLINE] + Identity(entry).value.1))
  {
    LineParses(entry, digest);
    CompleteFields(entry, digest);
  }

  /**
   * For every entry of bounded depth the record is one line: it has no inner newline, the validator accepts it and
   * orders it by the writer's identity, and the content recovered by re-parsing and erasing two members is the
   * hashed content. The byte cap is the only other thing that can refuse it.
   */
  lemma WriterMeetsValidator(entry: Json, sha: Sha, line: bytes)
    requires RecordOf(entry, sha).Ok? && Printable(entry, ENTRY_DEPTH)
    requires RecordOf(entry, sha).value.canonical == line + [NEWLINE]
    ensures NEWLINE !in line && line != []
    ensures LineIdentity(line, sha) ==
            (if |line| > MAXIMUM_LINE_BYTES then Err(OversizedLine) else Ok(RecordOf(entry, sha).value.identity))
    ensures match JsonParser.Parse(line)
            case Ok(Object(m)) => Print(Object(m - {OBSERVED_AT, CANONICAL_SHA256})) == RecordOf(entry, sha).value.content
            case _ => false
  {
    var digest := sha(Print(Object(Logical(entry))));
    assert line == LineOf(entry, digest) by {
      assert (line + [NEWLINE])[..|line|] == line;
      assert (LineOf(entry, digest) + [NEWLINE])[..|LineOf(entry, digest)|] == LineOf(entry, digest);
    }
    LineAccepted(entry, sha, digest);
    LineParses(entry, digest);
    CompleteFields(entry, digest);
  }

  /** Every record ends in the newline that separates the lines. */
  lemma RecordEndsLine(entry: Json, sha: Sha) returns (line: bytes)
    requires RecordOf(entry, sha).Ok?
    ensures RecordOf(entry, sha).value.canonical == line + [NEWLINE]
  {
    line := LineOf(entry, sha(Print(Object(Logical(entry)))));
  }
}
