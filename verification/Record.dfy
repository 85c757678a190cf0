/** Canonical records: what is written for one registry entry, and how one line is validated. */
module Record {
  import opened Bytes
  import opened Wrappers
  import opened Json
  import JsonParser

  /** The 64 lower-case hexadecimal digits of a SHA-256 digest. */
  type Digest = d: bytes | |d| == 64 && forall i | 0 <= i < |d| :: 0x30 <= d[i] <= 0x39 || 0x61 <= d[i] <= 0x66
    witness seq(64, _ => 0x30)

  /** The content hash, used only as some function of the bytes. */
  type Sha = bytes -> Digest

  const NEWLINE: Byte := 0x0A
  const MAXIMUM_LINE_BYTES := 8 * 1024 * 1024

  const RECORD_VERSION := Ascii("record_version")
  const REGISTRY := Ascii("registry")
  const SERVER_IDENTIFIER := Ascii("server_identifier")
  const SERVER_VERSION := Ascii("server_version")
  const DESCRIPTION := Ascii("description")
  const REPOSITORY := Ascii("repository")
  const PACKAGES := Ascii("packages")
  const REMOTES := Ascii("remotes")
  const ORIGINAL := Ascii("original")
  const OBSERVED_AT := Ascii("observed_at")
  const CANONICAL_SHA256 := Ascii("canonical_sha256")

  const SERVER := Ascii("server")
  const NAME := Ascii("name")
  const VERSION := Ascii("version")
  const META := Ascii("_meta")
  const OFFICIAL := Ascii("io.modelcontextprotocol.registry/official")
  const UPDATED_AT := Ascii("updatedAt")
  const PUBLISHED_AT := Ascii("publishedAt")
  const EPOCH := Ascii("1970-01-01T00:00:00Z")

  /** Every member name of a logical object. */
  const LOGICAL_KEYS := [RECORD_VERSION, REGISTRY, SERVER_IDENTIFIER, SERVER_VERSION, DESCRIPTION, REPOSITORY, PACKAGES,
                         REMOTES, ORIGINAL]

  const OPTIONAL_KEYS := [DESCRIPTION, REPOSITORY, PACKAGES, REMOTES]

  type Fields = map<bytes, Json>

  function ObjectMember(m: Fields, key: bytes): Option<Fields> {
    if key in m && m[key].Object? then Some(m[key].members) else None
  }

  function StringMember(m: Fields, key: bytes): Option<bytes> {
    if key in m && m[key].Text? then Some(m[key].text) else None
  }

  /** Two digits as a number. */
  function TwoDigits(s: bytes, i: nat): int
    requires i + 1 < |s|
  {
    var a: int, b: int := s[i], s[i + 1];
    (a - 0x30) * 10 + b - 0x30
  }

  /** YYYY-MM-DDThh:mm:ssZ with each field in range. */
  predicate ValidTimestamp(s: bytes) {
    && |s| == 20 && s[4] == 0x2D && s[7] == 0x2D && s[10] == 0x54 && s[13] == 0x3A && s[16] == 0x3A && s[19] == 0x5A
    && (forall i | 0 <= i < 19 && i != 4 && i != 7 && i != 10 && i != 13 && i != 16 :: IsDigit(s[i]))
    && 1 <= TwoDigits(s, 5) <= 12 && 1 <= TwoDigits(s, 8) <= 31
    && TwoDigits(s, 11) <= 23 && TwoDigits(s, 14) <= 59 && TwoDigits(s, 17) <= 59
  }

  lemma EpochIsValid()
    ensures ValidTimestamp(EPOCH)
  {
    EpochMarks();
    EpochFields();
  }

  lemma EpochMarks()
    ensures var e := EPOCH;
            && |e| == 20 && e[4] == 0x2D && e[7] == 0x2D && e[10] == 0x54 && e[13] == 0x3A && e[16] == 0x3A && e[19] == 0x5A
            && (forall i | 0 <= i < 19 && i != 4 && i != 7 && i != 10 && i != 13 && i != 16 :: IsDigit(e[i]))
  {}

  lemma EpochFields()
    ensures |EPOCH| == 20 && TwoDigits(EPOCH, 5) == 1 && TwoDigits(EPOCH, 8) == 1
    ensures TwoDigits(EPOCH, 11) == 0 && TwoDigits(EPOCH, 14) == 0 && TwoDigits(EPOCH, 17) == 0
  {}

  /** A timestamp as it is, or the epoch. */
  function OrEpoch(text: Option<bytes>): (r: bytes)
    ensures ValidTimestamp(r)
  {
    EpochIsValid();
    if text.Some? && ValidTimestamp(text.value) then text.value else EPOCH
  }

  /** The first of updatedAt and publishedAt that is a timestamp, or the epoch. */
  function StableObservedAt(wrapper: Fields): (r: bytes)
    ensures ValidTimestamp(r)
  {
    match ObjectMember(wrapper, META)
    case None => OrEpoch(None)
    case Some(metadata) =>
      match ObjectMember(metadata, OFFICIAL)
      case None => OrEpoch(None)
      case Some(official) =>
        match StringMember(official, UPDATED_AT) {
          case Some(updated) => if ValidTimestamp(updated) then updated else OrEpoch(StringMember(official, PUBLISHED_AT))
          case None => OrEpoch(StringMember(official, PUBLISHED_AT))
        }
  }

  const SLASH: Byte := 0x2F

  predicate NameByte(c: Byte, afterSlash: bool) {
    0x61 <= c <= 0x7A || 0x41 <= c <= 0x5A || IsDigit(c) || c == 0x2E || c == 0x2D || (afterSlash && c == 0x5F)
  }

  /** namespace/name: one inner slash, letters, digits, dots, dashes, and underscores after the slash. */
  predicate ValidServerName(s: bytes) {
    3 <= |s| <= 200 && exists slash :: 0 < slash < |s| - 1 && SlashedAt(s, slash)
  }

  predicate SlashedAt(s: bytes, slash: nat)
    requires slash < |s|
  {
    s[slash] == SLASH && forall i | 0 <= i < |s| && i != slash :: NameByte(s[i], i > slash)
  }

  predicate ValidServerVersion(s: bytes) {
    0 < |s| <= 255 && forall i | 0 <= i < |s| :: s[i] >= 0x20 && s[i] != 0x7F
  }

  datatype RecordError = EntryNotObject | MissingServer | InvalidIdentity

  /** What one entry contributes: its identity, the hashed content, and the line written. */
  datatype Record = Record(identity: bytes, content: bytes, canonical: bytes)

  /** The entry's name and exact version, when it has valid ones. */
  function Identity(entry: Json): Outcome<(bytes, bytes), RecordError> {
    if !entry.Object? then Err(EntryNotObject)
    else
      match ObjectMember(entry.members, SERVER)
      case None => Err(MissingServer)
      case Some(server) =>
        match (StringMember(server, NAME), StringMember(server, VERSION))
        case (Some(name), Some(version)) =>
          if ValidServerName(name) && ValidServerVersion(version) then Ok((name, version)) else Err(InvalidIdentity)
        case _ => Err(InvalidIdentity)
  }

  /** The members copied from the server object, when present. */
  function Copied(logical: Fields, server: Fields, keys: seq<bytes>): Fields
    decreases |keys|
  {
    if keys == [] then logical
    else Copied(if keys[0] in server then logical[keys[0] := server[keys[0]]] else logical, server, keys[1..])
  }

  /** The members every record starts with. */
  function Base(name: bytes, version: bytes): Fields {
    map[RECORD_VERSION := Number(Ascii("1"))][REGISTRY := Text(Ascii("official-mcp"))]
       [SERVER_IDENTIFIER := Text(name)][SERVER_VERSION := Text(version)]
  }

  /** The members whose canonical text is hashed. */
  function Logical(entry: Json): Fields
    requires Identity(entry).Ok?
  {
    var (name, version) := Identity(entry).value;
    Copied(Base(name, version), entry.members[SERVER].members, OPTIONAL_KEYS)[ORIGINAL := entry]
  }

  function Complete(entry: Json, digest: bytes): Fields
    requires Identity(entry).Ok?
  {
    Logical(entry)[OBSERVED_AT := Text(StableObservedAt(entry.members))][CANONICAL_SHA256 := Text(digest)]
  }

  /** What must be written for an entry. */
  ghost function RecordOf(entry: Json, sha: Sha): Outcome<Record, RecordError> {
    match Identity(entry)
    case Err(e) => Err(e)
    case Ok((name, version)) =>
      var content := Print(Object(Logical(entry)));
      Ok(Record(name + [NEWLINE] + version, content, Print(Object(Complete(entry, sha(content)))) + [NEWLINE]))
  }

  /** build_record: fills the logical object, prints and hashes it, adds two members and prints again. */
  method BuildRecord(entry: Json, sha: Sha) returns (r: Outcome<Record, RecordError>)
    ensures r == RecordOf(entry, sha)
  {
    if !entry.Object? { return Err(EntryNotObject); }
    var found := ObjectMember(entry.members, SERVER);
    if found.None? { return Err(MissingServer); }
    var server := found.value;
    var name, version := StringMember(server, NAME), StringMember(server, VERSION);
    if name.None? || !ValidServerName(name.value) || version.None? || !ValidServerVersion(version.value) {
      return Err(InvalidIdentity);
    }
    var identity := name.value + [NEWLINE] + version.value;
    var logical := map[RECORD_VERSION := Number(Ascii("1"))];
    logical := logical[REGISTRY := Text(Ascii("official-mcp"))];
    logical := logical[SERVER_IDENTIFIER := Text(name.value)];
    logical := logical[SERVER_VERSION := Text(version.value)];
    ghost var base := logical;
    var i := 0;
    while i < |OPTIONAL_KEYS|
      invariant 0 <= i <= |OPTIONAL_KEYS|
      invariant Copied(logical, server, OPTIONAL_KEYS[i..]) == Copied(base, server, OPTIONAL_KEYS)
    {
      var key := OPTIONAL_KEYS[i];
      assert OPTIONAL_KEYS[i..][1..] == OPTIONAL_KEYS[i + 1..];
      if key in server { logical := logical[key := server[key]]; }
      i := i + 1;
    }
    logical := logical[ORIGINAL := entry];
    var content := CanonicalJson(Object(logical), []);
    assert content == Print(Object(logical));
    var digest := sha(content);
    logical := logical[OBSERVED_AT := Text(StableObservedAt(entry.members))];
    logical := logical[CANONICAL_SHA256 := Text(digest)];
    var canonical := CanonicalJson(Object(logical), []);
    assert canonical == Print(Object(logical));
    return Ok(Record(identity, content, canonical + [NEWLINE]));
  }

  datatype LineError =
    | EmptyLine | OversizedLine | InvalidJson(error: JsonParser.JsonError) | NotNormalized
    | NotObject | InvalidFields | HashMismatch

  /** The checks the validator makes on one line, giving the identity it orders by. */
  ghost function LineIdentity(line: bytes, sha: Sha): Outcome<bytes, LineError> {
    if line == [] then Err(EmptyLine)
    else if |line| > MAXIMUM_LINE_BYTES then Err(OversizedLine)
    else
      match JsonParser.Parse(line)
      case Err(e) => Err(InvalidJson(e))
      case Ok(record) =>
        if Print(record) != line then Err(NotNormalized)
        else if !record.Object? then Err(NotObject)
        else
          var m := record.members;
          match (StringMember(m, SERVER_IDENTIFIER), StringMember(m, SERVER_VERSION),
                 StringMember(m, OBSERVED_AT), StringMember(m, CANONICAL_SHA256))
          case (Some(name), Some(version), Some(observed), Some(declared)) =>
            if !ValidTimestamp(observed) then Err(InvalidFields)
            else if sha(Print(Object(m - {OBSERVED_AT, CANONICAL_SHA256}))) != declared then Err(HashMismatch)
            else Ok(name + [NEWLINE] + version)
          case _ => Err(InvalidFields)
  }

  /** One round of the validator's loop over canonical lines. */
  method ValidateLine(line: bytes, sha: Sha) returns (r: Outcome<bytes, LineError>)
    ensures r == LineIdentity(line, sha)
  {
    if line == [] { return Err(EmptyLine); }
    if |line| > MAXIMUM_LINE_BYTES { return Err(OversizedLine); }
    var parser := new JsonParser.Parser(line);
    var parsed := parser.Run();
    if parsed.Err? { return Err(InvalidJson(parsed.error)); }
    var normalized := CanonicalJson(parsed.value, []);
    assert normalized == Print(parsed.value);
    if normalized != line { return Err(NotNormalized); }
    if !parsed.value.Object? { return Err(NotObject); }
    var m := parsed.value.members;
    var name, version := StringMember(m, SERVER_IDENTIFIER), StringMember(m, SERVER_VERSION);
    var observed, declared := StringMember(m, OBSERVED_AT), StringMember(m, CANONICAL_SHA256);
    if name.None? || version.None? || observed.None? || declared.None? || !ValidTimestamp(observed.value) {
      return Err(InvalidFields);
    }
    var logical := m - {OBSERVED_AT, CANONICAL_SHA256};
    var content := CanonicalJson(Object(logical), []);
    assert content == Print(Object(logical));
    if sha(content) != declared.value { return Err(HashMismatch); }
    return Ok(name.value + [NEWLINE] + version.value);
  }
}
