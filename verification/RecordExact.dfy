/** What the record's parts are, said by their written form: timestamps, names, members and accepted lines. */
module RecordExact {
  import opened Bytes
  import opened Wrappers
  import opened Json
  import JsonParser
  import opened JsonRoundTrip
  import opened Record

  // Timestamps.

  datatype Moment = Moment(year: nat, month: nat, day: nat, hour: nat, minute: nat, second: nat)

  predicate InRange(m: Moment) {
    && m.year < 10_000 && 1 <= m.month <= 12 && 1 <= m.day <= 31 && m.hour < 24 && m.minute < 60 && m.second < 60
  }

  /** A number below a hundred in two digits. */
  function Two(n: nat): bytes
    requires n < 100
  {
    [DIGITS[n / 10], DIGITS[n % 10]]
  }

  predicate Pair(s: bytes, i: nat, n: nat) { i + 1 < |s| && n < 100 && s[i..i + 2] == Two(n) }

  /** The moment in the written form YYYY-MM-DDThh:mm:ssZ. */
  predicate Spells(s: bytes, m: Moment)
    requires InRange(m)
  {
    && |s| == 20 && Pair(s, 0, m.year / 100) && Pair(s, 2, m.year % 100) && Pair(s, 5, m.month) && Pair(s, 8, m.day)
    && Pair(s, 11, m.hour) && Pair(s, 14, m.minute) && Pair(s, 17, m.second)
    && s[4] == s[7] == '-' as int && s[10] == 'T' as int && s[13] == s[16] == ':' as int && s[19] == 'Z' as int
  }

  lemma TwoRead(s: bytes, i: nat)
    requires i + 1 < |s| && IsDigit(s[i]) && IsDigit(s[i + 1])
    ensures 0 <= TwoDigits(s, i) && Pair(s, i, TwoDigits(s, i))
  {
    var n := TwoDigits(s, i);
    assert n / 10 == s[i] - 0x30 && n % 10 == s[i + 1] - 0x30;
    DigitAt(n / 10);
    DigitAt(n % 10);
  }

  lemma TwoWritten(s: bytes, i: nat, n: nat)
    requires Pair(s, i, n)
    ensures IsDigit(s[i]) && IsDigit(s[i + 1]) && TwoDigits(s, i) == n
  {
    DigitAt(n / 10);
    DigitAt(n % 10);
    assert s[i..i + 2][0] == s[i] && s[i..i + 2][1] == s[i + 1];
  }

  lemma Hundreds(a: nat, b: nat)
    requires a < 100 && b < 100
    ensures a * 100 + b < 10_000 && (a * 100 + b) / 100 == a && (a * 100 + b) % 100 == b
  {}

  lemma AllDigits(s: bytes)
    requires |s| == 20 && IsDigit(s[0]) && IsDigit(s[1]) && IsDigit(s[2]) && IsDigit(s[3]) && IsDigit(s[5]) && IsDigit(s[6])
    requires IsDigit(s[8]) && IsDigit(s[9]) && IsDigit(s[11]) && IsDigit(s[12]) && IsDigit(s[14]) && IsDigit(s[15])
    requires IsDigit(s[17]) && IsDigit(s[18])
    ensures forall i | 0 <= i < 19 && i != 4 && i != 7 && i != 10 && i != 13 && i != 16 :: IsDigit(s[i])
  {}

  lemma TimestampSpelled(s: bytes) returns (m: Moment)
    requires ValidTimestamp(s)
    ensures InRange(m) && Spells(s, m)
  {
    TwoRead(s, 5);
    TwoRead(s, 8);
    TwoRead(s, 11);
    TwoRead(s, 14);
    TwoRead(s, 17);
    var year := YearSpelled(s);
    m := Moment(year, TwoDigits(s, 5), TwoDigits(s, 8), TwoDigits(s, 11), TwoDigits(s, 14), TwoDigits(s, 17));
  }

  lemma YearSpelled(s: bytes) returns (year: nat)
    requires ValidTimestamp(s)
    ensures year < 10_000 && Pair(s, 0, year / 100) && Pair(s, 2, year % 100)
  {
    TwoRead(s, 0);
    TwoRead(s, 2);
    year := TwoDigits(s, 0) * 100 + TwoDigits(s, 2);
    Hundreds(TwoDigits(s, 0), TwoDigits(s, 2));
  }

  lemma TimestampValid(s: bytes, m: Moment)
    requires InRange(m) && Spells(s, m)
    ensures ValidTimestamp(s)
  {
    TwoWritten(s, 0, m.year / 100);
    TwoWritten(s, 2, m.year % 100);
    TwoWritten(s, 5, m.month);
    TwoWritten(s, 8, m.day);
    TwoWritten(s, 11, m.hour);
    TwoWritten(s, 14, m.minute);
    TwoWritten(s, 17, m.second);
    AllDigits(s);
  }

  /** A valid timestamp is exactly the written form of a moment with every field in range. */
  lemma TimestampExactly(s: bytes)
    ensures ValidTimestamp(s) <==> exists m: Moment :: InRange(m) && Spells(s, m)
  {
    if ValidTimestamp(s) { var m := TimestampSpelled(s); }
    if m: Moment :| InRange(m) && Spells(s, m) { TimestampValid(s, m); }
  }

  // Names.

  /** Every byte is a letter, a digit or one of some further marks. */
  predicate Spelled(s: bytes, marks: bytes) {
    forall i | 0 <= i < |s| :: s[i] in SMALLS || s[i] in CAPITALS || s[i] in DIGITS || s[i] in marks
  }

  const MARKS := Ascii(".-")
  const MORE_MARKS := Ascii(".-_")

  lemma NameByteExactly(c: Byte)
    ensures NameByte(c, false) <==> Spelled([c], MARKS)
    ensures NameByte(c, true) <==> Spelled([c], MORE_MARKS)
  {
    CharactersExactly(c);
    assert MARKS[0] == 0x2E && MARKS[1] == 0x2D && MORE_MARKS[0] == 0x2E && MORE_MARKS[1] == 0x2D && MORE_MARKS[2] == 0x5F;
    assert [c][0] == c;
  }

  /** A namespace and a name with a slash between them. */
  predicate Parts(s: bytes, space: bytes, name: bytes) {
    && s == space + Ascii("/") + name && space != [] && name != [] && Spelled(space, MARKS) && Spelled(name, MORE_MARKS)
  }

  lemma SpelledAt(s: bytes, i: nat)
    requires i < |s|
    ensures Spelled(s, MARKS) ==> NameByte(s[i], false)
    ensures Spelled(s, MORE_MARKS) ==> NameByte(s[i], true)
  {
    NameByteExactly(s[i]);
    assert [s[i]][0] == s[i];
  }

  lemma SpelledAll(s: bytes, after: bool)
    requires forall i | 0 <= i < |s| :: NameByte(s[i], after)
    ensures Spelled(s, if after then MORE_MARKS else MARKS)
  {
    forall i | 0 <= i < |s| ensures Spelled([s[i]], if after then MORE_MARKS else MARKS) { NameByteExactly(s[i]); }
    assert forall i | 0 <= i < |s| :: [s[i]][0] == s[i];
  }

  /** A server name is a namespace and a name, three to two hundred bytes in all; only the name may have underscores. */
  lemma ServerNameExactly(s: bytes)
    ensures ValidServerName(s) <==> 3 <= |s| <= 200 && exists space, name :: Parts(s, space, name)
  {
    assert Ascii("/") == [SLASH];
    if ValidServerName(s) {
      var slash :| 0 < slash < |s| - 1 && SlashedAt(s, slash);
      SlashedParts(s, slash);
    }
    if 3 <= |s| <= 200 && exists space, name :: Parts(s, space, name) {
      var space, name :| Parts(s, space, name);
      PartsSlashed(s, space, name);
    }
  }

  lemma SlashedParts(s: bytes, slash: nat)
    requires 0 < slash < |s| - 1 && SlashedAt(s, slash)
    ensures Parts(s, s[..slash], s[slash + 1..])
  {
    var space, name := s[..slash], s[slash + 1..];
    assert s == space + [s[slash]] + name;
    assert Ascii("/") == [SLASH];
    forall i | 0 <= i < |space| ensures NameByte(space[i], false) { assert NameByte(s[i], i > slash); }
    forall i | 0 <= i < |name| ensures NameByte(name[i], true) { assert NameByte(s[slash + 1 + i], slash + 1 + i > slash); }
    SpelledAll(space, false);
    SpelledAll(name, true);
  }

  lemma PartsSlashed(s: bytes, space: bytes, name: bytes)
    requires Parts(s, space, name)
    ensures 0 < |space| < |s| - 1 && SlashedAt(s, |space|)
  {
    assert Ascii("/") == [SLASH];
    forall i | 0 <= i < |s| && i != |space| ensures NameByte(s[i], i > |space|) {
      if i < |space| {
        assert s[i] == space[i];
        SpelledAt(space, i);
      } else {
        assert s[i] == name[i - |space| - 1];
        SpelledAt(name, i - |space| - 1);
      }
    }
  }

  predicate HasText(m: Fields, key: bytes, t: bytes) { key in m && m[key] == Text(t) }

  /** An entry has an identity exactly when its server object has a valid name and version. */
  lemma IdentityExactly(entry: Json, name: bytes, version: bytes)
    ensures Identity(entry) == Ok((name, version)) <==>
            && entry.Object? && Ascii("server") in entry.members && entry.members[Ascii("server")].Object?
            && HasText(entry.members[Ascii("server")].members, Ascii("name"), name) && ValidServerName(name)
            && HasText(entry.members[Ascii("server")].members, Ascii("version"), version) && ValidServerVersion(version)
  {}

  // The time of observation.

  /** The official metadata of a registry entry says this under a key. */
  predicate Official(wrapper: Fields, key: bytes, t: bytes) {
    && META in wrapper && wrapper[META].Object?
    && OFFICIAL in wrapper[META].members && wrapper[META].members[OFFICIAL].Object?
    && HasText(wrapper[META].members[OFFICIAL].members, key, t)
  }

  lemma OfficialKeys()
    ensures META == Ascii("_meta") && OFFICIAL == Ascii("io.modelcontextprotocol.") + Ascii("registry/official")
    ensures EPOCH == Ascii("1970-01-01T00:00:00Z")
  {}

  /** The time of the last update if it is a timestamp, else that of publication if it is one, else the epoch. */
  lemma ObservedExactly(wrapper: Fields)
    ensures forall t | Official(wrapper, Ascii("updatedAt"), t) && ValidTimestamp(t) :: StableObservedAt(wrapper) == t
    ensures (forall u | Official(wrapper, Ascii("updatedAt"), u) :: !ValidTimestamp(u)) ==>
              && (forall t | Official(wrapper, Ascii("publishedAt"), t) && ValidTimestamp(t) :: StableObservedAt(wrapper) == t)
              && ((forall t | Official(wrapper, Ascii("publishedAt"), t) :: !ValidTimestamp(t)) ==> StableObservedAt(wrapper) == EPOCH)
  {
    if META in wrapper && wrapper[META].Object? && OFFICIAL in wrapper[META].members && wrapper[META].members[OFFICIAL].Object? {
      var official := wrapper[META].members[OFFICIAL].members;
      assert forall key: bytes, t: bytes :: Official(wrapper, key, t) <==> HasText(official, key, t);
      assert ObjectMember(wrapper, META) == Some(wrapper[META].members);
      assert ObjectMember(wrapper[META].members, OFFICIAL) == Some(official);
      ChosenExactly(official, StableObservedAt(wrapper));
    }
  }

  lemma ChosenExactly(official: Fields, chosen: bytes)
    requires var updated := StringMember(official, UPDATED_AT);
             chosen == if updated.Some? && ValidTimestamp(updated.value) then updated.value else OrEpoch(StringMember(official, PUBLISHED_AT))
    ensures forall t | HasText(official, Ascii("updatedAt"), t) && ValidTimestamp(t) :: chosen == t
    ensures (forall u | HasText(official, Ascii("updatedAt"), u) :: !ValidTimestamp(u)) ==>
              && (forall t | HasText(official, Ascii("publishedAt"), t) && ValidTimestamp(t) :: chosen == t)
              && ((forall t | HasText(official, Ascii("publishedAt"), t) :: !ValidTimestamp(t)) ==> chosen == EPOCH)
  {
    var updated := StringMember(official, UPDATED_AT);
    if updated.Some? { assert HasText(official, Ascii("updatedAt"), updated.value); }
    var published := StringMember(official, PUBLISHED_AT);
    if published.Some? { assert HasText(official, Ascii("publishedAt"), published.value); }
  }

  // The members of a record.

  lemma {:induction false} CopiedExactly(logical: Fields, server: Fields, keys: seq<bytes>, k: bytes)
    ensures k in Copied(logical, server, keys) <==> k in logical || (k in keys && k in server)
    ensures k in keys && k in server ==> Copied(logical, server, keys)[k] == server[k]
    ensures !(k in keys && k in server) && k in logical ==> Copied(logical, server, keys)[k] == logical[k]
    decreases |keys|
  {
    if keys != [] {
      CopiedExactly(if keys[0] in server then logical[keys[0] := server[keys[0]]] else logical, server, keys[1..], k);
    }
  }

  /** The member names differ in length or in their first byte. */
  lemma KeyShapes()
    ensures |RECORD_VERSION| == 14 && RECORD_VERSION[0] == 0x72 && |REGISTRY| == 8 && REGISTRY[0] == 0x72
    ensures |SERVER_IDENTIFIER| == 17 && |SERVER_VERSION| == 14 && SERVER_VERSION[0] == 0x73
    ensures |DESCRIPTION| == 11 && DESCRIPTION[0] == 0x64 && |REPOSITORY| == 10 && |REMOTES| == 7
    ensures |PACKAGES| == 8 && PACKAGES[0] == 0x70 && |ORIGINAL| == 8 && ORIGINAL[0] == 0x6F
    ensures |OBSERVED_AT| == 11 && OBSERVED_AT[0] == 0x6F && |CANONICAL_SHA256| == 16
  {}

  lemma KeysExactly()
    ensures RECORD_VERSION == Ascii("record_version") && REGISTRY == Ascii("registry")
    ensures SERVER_IDENTIFIER == Ascii("server_identifier") && SERVER_VERSION == Ascii("server_version")
    ensures DESCRIPTION == Ascii("description") && REPOSITORY == Ascii("repository") && PACKAGES == Ascii("packages")
    ensures REMOTES == Ascii("remotes") && ORIGINAL == Ascii("original") && OBSERVED_AT == Ascii("observed_at")
    ensures CANONICAL_SHA256 == Ascii("canonical_sha256")
  {}

  /** The members taken from the server object, if it has them. */
  const TAKEN := {DESCRIPTION, REPOSITORY, PACKAGES, REMOTES}

  lemma TakenExactly(k: bytes)
    ensures k in OPTIONAL_KEYS <==> k in TAKEN
  {
    var o := OPTIONAL_KEYS;
    assert o[0] == DESCRIPTION && o[1] == REPOSITORY && o[2] == PACKAGES && o[3] == REMOTES;
  }

  const FIXED := {RECORD_VERSION, REGISTRY, SERVER_IDENTIFIER, SERVER_VERSION}
  const ADDED := {ORIGINAL, OBSERVED_AT, CANONICAL_SHA256}

  /** A record has these members and no others. */
  lemma MembersExactly(entry: Json, digest: bytes)
    requires Identity(entry).Ok?
    ensures var m, (name, version), server := Complete(entry, digest), Identity(entry).value, entry.members[SERVER].members;
            && (forall k :: k in m <==> k in FIXED || k in ADDED || (k in TAKEN && k in server))
            && (forall k | k in TAKEN && k in server :: m[k] == server[k])
            && m[RECORD_VERSION] == Number(Ascii("1")) && m[REGISTRY] == Text(Ascii("official-mcp"))
            && m[SERVER_IDENTIFIER] == Text(name) && m[SERVER_VERSION] == Text(version) && m[ORIGINAL] == entry
            && m[OBSERVED_AT] == Text(StableObservedAt(entry.members)) && m[CANONICAL_SHA256] == Text(digest)
  {
    var (name, version) := Identity(entry).value;
    var base, server := Base(name, version), entry.members[SERVER].members;
    var copied := Copied(base, server, OPTIONAL_KEYS);
    BaseExactly(name, version);
    CopiedTaken(base, server);
    AddedExactly(entry, digest, copied);
    KeysApart();
    Assembled(base, server, copied, Complete(entry, digest));
  }

  lemma KeysApart()
    ensures FIXED !! TAKEN && FIXED !! ADDED && TAKEN !! ADDED
  {
    KeyShapes();
  }

  lemma CopiedTaken(base: Fields, server: Fields)
    ensures var copied := Copied(base, server, OPTIONAL_KEYS);
            && (forall k :: k in copied <==> k in base || (k in TAKEN && k in server))
            && (forall k | k in TAKEN && k in server :: copied[k] == server[k])
            && (forall k | k in base && !(k in TAKEN && k in server) :: copied[k] == base[k])
  {
    var copied := Copied(base, server, OPTIONAL_KEYS);
    forall k
      ensures k in copied <==> k in base || (k in TAKEN && k in server)
      ensures k in TAKEN && k in server ==> copied[k] == server[k]
      ensures k in base && !(k in TAKEN && k in server) ==> copied[k] == base[k]
    {
      TakenExactly(k);
      CopiedExactly(base, server, OPTIONAL_KEYS, k);
    }
  }

  lemma Assembled(base: Fields, server: Fields, copied: Fields, m: Fields)
    requires base.Keys == FIXED && FIXED !! TAKEN && FIXED !! ADDED && TAKEN !! ADDED
    requires forall k :: k in copied <==> k in base || (k in TAKEN && k in server)
    requires forall k | k in TAKEN && k in server :: copied[k] == server[k]
    requires forall k | k in base && !(k in TAKEN && k in server) :: copied[k] == base[k]
    requires forall k :: k in m <==> k in copied || k in ADDED
    requires forall k | k in copied && k !in ADDED :: m[k] == copied[k]
    ensures forall k :: k in m <==> k in FIXED || k in ADDED || (k in TAKEN && k in server)
    ensures forall k | k in TAKEN && k in server :: m[k] == server[k]
    ensures forall k | k in FIXED :: m[k] == base[k]
  {}

  lemma BaseExactly(name: bytes, version: bytes)
    ensures var b := Base(name, version);
            && b.Keys == FIXED
            && b[RECORD_VERSION] == Number(Ascii("1")) && b[REGISTRY] == Text(Ascii("official-mcp"))
            && b[SERVER_IDENTIFIER] == Text(name) && b[SERVER_VERSION] == Text(version)
  {
    KeyShapes();
  }

  lemma AddedExactly(entry: Json, digest: bytes, copied: Fields)
    requires Identity(entry).Ok?
    requires copied == Copied(Base(Identity(entry).value.0, Identity(entry).value.1), entry.members[SERVER].members, OPTIONAL_KEYS)
    ensures var m := Complete(entry, digest);
            && (forall k :: k in m <==> k in copied || k in ADDED)
            && (forall k | k in copied && k !in ADDED :: m[k] == copied[k])
            && m[ORIGINAL] == entry && m[OBSERVED_AT] == Text(StableObservedAt(entry.members)) && m[CANONICAL_SHA256] == Text(digest)
  {
    KeyShapes();
  }

  // Accepted lines.

  /** The object whose canonical text is the line, with a valid time and the hash of the object without those two members. */
  ghost predicate AcceptedLine(line: bytes, sha: Sha, m: Fields, name: bytes, version: bytes) {
    && 0 < |line| <= 8_388_608 && line == Print(Object(m)) && Printable(Object(m), MAXIMUM_DEPTH)
    && HasText(m, SERVER_IDENTIFIER, name) && HasText(m, SERVER_VERSION, version)
    && OBSERVED_AT in m && m[OBSERVED_AT].Text? && ValidTimestamp(m[OBSERVED_AT].text)
    && HasText(m, CANONICAL_SHA256, sha(Print(Object(m - {OBSERVED_AT, CANONICAL_SHA256}))))
  }

  /** A line is accepted exactly when it is such a text, and its identity is its name and version with a newline between. */
  lemma LineExactly(line: bytes, sha: Sha, id: bytes)
    ensures LineIdentity(line, sha) == Ok(id) <==>
            exists m, name, version :: AcceptedLine(line, sha, m, name, version) && id == name + [0x0A] + version
  {
    if LineIdentity(line, sha) == Ok(id) { var m, name, version := LineSound(line, sha, id); }
    if m, name, version :| AcceptedLine(line, sha, m, name, version) && id == name + [0x0A] + version {
      LineComplete(line, sha, m, name, version);
    }
  }

  lemma LineSound(line: bytes, sha: Sha, id: bytes) returns (m: Fields, name: bytes, version: bytes)
    requires LineIdentity(line, sha) == Ok(id)
    ensures AcceptedLine(line, sha, m, name, version) && id == name + [0x0A] + version
  {
    m := JsonParser.Parse(line).value.members;
    name, version := m[SERVER_IDENTIFIER].text, m[SERVER_VERSION].text;
    ParsedIsPrintable(line);
  }

  lemma LineComplete(line: bytes, sha: Sha, m: Fields, name: bytes, version: bytes)
    requires AcceptedLine(line, sha, m, name, version)
    ensures LineIdentity(line, sha) == Ok(name + [0x0A] + version)
  {
    ParsePrint(Object(m));
  }
}
