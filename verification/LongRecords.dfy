/** How long a record's line gets: the description is in it twice, which the validator's cap does not allow for. */
module LongRecords {
  import opened Bytes
  import opened Utf8
  import opened Wrappers
  import opened Json
  import opened JsonRoundTrip
  import opened Record
  import opened WriterValidator

  lemma {:induction false} EscapedLength(s: bytes)
    ensures |Escaped(s)| >= |s|
  {
    if s != [] { EscapedLength(s[1..]); }
  }

  lemma {:induction false} MembersLength(j: Json, keys: seq<bytes>, a: bytes, b: bytes)
    requires j.Object? && (forall k | k in keys :: k in j.members) && a != b
    ensures a in keys ==> |PrintMembers(j, keys)| >= |PrintMember(j, a)|
    ensures b in keys ==> |PrintMembers(j, keys)| >= |PrintMember(j, b)|
    ensures a in keys && b in keys ==> |PrintMembers(j, keys)| >= |PrintMember(j, a)| + |PrintMember(j, b)|
    decreases |keys|
  {
    if keys != [] {
      assert keys == [keys[0]] + keys[1..];
      MembersLength(j, keys[1..], a, b);
    }
  }

  /** An object's text is longer than that of any two of its members. */
  lemma ObjectLength(j: Json, a: bytes, b: bytes)
    requires j.Object? && a in j.members && b in j.members && a != b
    ensures |Print(j)| > |Print(j.members[a])| + |Print(j.members[b])|
  {
    var keys := InOrder(j.members.Keys);
    assert a in keys && b in keys;
    MembersLength(j, keys, a, b);
    assert |PrintMembers(j, keys)| == 1 + |PrintKeys(j, keys)|;
  }

  lemma {:induction false} CopiedValue(logical: Fields, server: Fields, keys: seq<bytes>, key: bytes)
    requires key in server && (key in keys || (key in logical && logical[key] == server[key]))
    ensures key in Copied(logical, server, keys) && Copied(logical, server, keys)[key] == server[key]
    decreases |keys|
  {
    if keys != [] {
      CopiedValue(if keys[0] in server then logical[keys[0] := server[keys[0]]] else logical, server, keys[1..], key);
    }
  }

  lemma DescriptionKept(entry: Json, digest: Digest)
    requires Identity(entry).Ok? && DESCRIPTION in entry.members[SERVER].members
    ensures var m := Complete(entry, digest);
            && DESCRIPTION in m && m[DESCRIPTION] == entry.members[SERVER].members[DESCRIPTION]
            && ORIGINAL in m && m[ORIGINAL] == entry
  {
    var (name, version) := Identity(entry).value;
    CopiedValue(Base(name, version), entry.members[SERVER].members, OPTIONAL_KEYS, DESCRIPTION);
    DescriptionDiffers();
  }

  lemma DescriptionDiffers()
    ensures DESCRIPTION != ORIGINAL && DESCRIPTION != OBSERVED_AT && DESCRIPTION != CANONICAL_SHA256
    ensures ORIGINAL != OBSERVED_AT && ORIGINAL != CANONICAL_SHA256 && NAME != DESCRIPTION
  {
    assert DESCRIPTION[0] == 0x64 && ORIGINAL[0] == 0x6F && ORIGINAL[1] == 0x72 && OBSERVED_AT[0] == 0x6F && OBSERVED_AT[1] == 0x62;
    assert CANONICAL_SHA256[0] == 0x63 && NAME[0] == 0x6E;
  }

  /** The line holds the description as a member of its own and inside the original entry. */
  lemma LineLength(entry: Json, digest: Digest, description: bytes)
    requires Identity(entry).Ok? && DESCRIPTION in entry.members[SERVER].members
    requires entry.members[SERVER].members[DESCRIPTION] == Text(description)
    ensures |LineOf(entry, digest)| > 2 * |description|
  {
    var server := entry.members[SERVER];
    DescriptionKept(entry, digest);
    DescriptionDiffers();
    EscapedLength(description);
    ObjectLength(server, DESCRIPTION, NAME);
    OneMember(entry, SERVER);
    ObjectLength(Object(Complete(entry, digest)), DESCRIPTION, ORIGINAL);
  }

  lemma OneMember(j: Json, a: bytes)
    requires j.Object? && a in j.members
    ensures |Print(j)| > |Print(j.members[a])|
  {
    var keys := InOrder(j.members.Keys);
    assert a in keys;
    MembersLength(j, keys, a, a + [0]);
    assert |PrintMembers(j, keys)| == 1 + |PrintKeys(j, keys)|;
  }

  /** A valid entry whose description of 4 MiB makes a line over the cap of 8 MiB. */
  const LONG_DESCRIPTION: bytes := seq(4 * 1024 * 1024, _ => 0x61)
  const LONG_SERVER: Fields := map[NAME := Text(Ascii("a/b")), VERSION := Text(Ascii("1")), DESCRIPTION := Text(LONG_DESCRIPTION)]
  const LONG_ENTRY := Object(map[SERVER := Object(LONG_SERVER)])

  lemma LongEntryFields()
    ensures NAME in LONG_SERVER && LONG_SERVER[NAME] == Text(Ascii("a/b"))
    ensures VERSION in LONG_SERVER && LONG_SERVER[VERSION] == Text(Ascii("1"))
    ensures DESCRIPTION in LONG_SERVER && LONG_SERVER[DESCRIPTION] == Text(LONG_DESCRIPTION)
    ensures forall k | k in LONG_SERVER :: k == NAME || k == VERSION || k == DESCRIPTION
  {
    assert NAME[0] == 0x6E && VERSION[0] == 0x76 && DESCRIPTION[0] == 0x64;
  }

  lemma LongEntryIdentity()
    ensures Identity(LONG_ENTRY) == Ok((Ascii("a/b"), Ascii("1")))
  {
    LongEntryFields();
    assert SlashedAt(Ascii("a/b"), 1);
    assert ValidServerName(Ascii("a/b")) && ValidServerVersion(Ascii("1"));
  }

  lemma LongEntryPrintable()
    ensures Printable(LONG_ENTRY, ENTRY_DEPTH)
  {
    LongEntryFields();
    AsciiIsText("server");
    AsciiIsText("name");
    AsciiIsText("version");
    AsciiIsText("description");
    AsciiIsText("a/b");
    AsciiIsText("1");
    ValidAscii(LONG_DESCRIPTION);
    assert Printable(Object(LONG_SERVER), ENTRY_DEPTH - 1);
  }

  /** The writer makes a record of it, and the validator refuses the line. */
  lemma LongLineRefused(sha: Sha) returns (line: bytes)
    ensures Printable(LONG_ENTRY, ENTRY_DEPTH) && RecordOf(LONG_ENTRY, sha).Ok?
    ensures RecordOf(LONG_ENTRY, sha).value.canonical == line + [NEWLINE]
    ensures |line| > MAXIMUM_LINE_BYTES && LineIdentity(line, sha) == Err(OversizedLine)
  {
    LongEntryIdentity();
    LongEntryPrintable();
    LongEntryFields();
    var digest := sha(Print(Object(Logical(LONG_ENTRY))));
    line := LineOf(LONG_ENTRY, digest);
    LineLength(LONG_ENTRY, digest, LONG_DESCRIPTION);
    WriterMeetsValidator(LONG_ENTRY, sha, line);
  }
}
