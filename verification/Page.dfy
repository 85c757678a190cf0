/** One registry response: its records and its cursors. */
module Page {
  import opened Bytes
  import opened Wrappers
  import opened Json
  import JsonParser
  import opened JsonRoundTrip
  import opened Record
  import opened WriterValidator

  /** The pair kept in memory for a record: its identity and its canonical line, newline included. */
  datatype Stored = Stored(identity: bytes, line: bytes)

  datatype Page = Page(records: seq<Stored>, next: Option<bytes>, declared: Option<bytes>)

  datatype PageError =
    | InvalidText(error: JsonParser.JsonError) | NotAnObject | MissingServers | BadRecord(reason: RecordError)
    | BadNextCursor | BadCursor | MissingMetadata

  const SERVERS := Ascii("servers")
  const METADATA := Ascii("metadata")
  const NEXT_CURSOR := Ascii("nextCursor")
  const CURSOR := Ascii("cursor")

  /** The records of the entries, after those already built; the first bad entry stops. */
  ghost function RecordsOf(entries: seq<Json>, built: seq<Stored>, sha: Sha): Outcome<seq<Stored>, PageError>
    decreases |entries|
  {
    if entries == [] then Ok(built)
    else
      match RecordOf(entries[0], sha)
      case Err(e) => Err(BadRecord(e))
      case Ok(r) => RecordsOf(entries[1..], built + [Stored(r.identity, r.canonical)], sha)
  }

  /** metadata.nextCursor: absent, null and the empty string all end the chain. */
  function NextCursor(metadata: Fields): Outcome<Option<bytes>, PageError> {
    if NEXT_CURSOR !in metadata then Ok(None)
    else
      match metadata[NEXT_CURSOR]
      case Null => Ok(None)
      case Text(t) => if t == [] then Ok(None) else Ok(Some(t))
      case _ => Err(BadNextCursor)
  }

  /** metadata.cursor, read only on resume, must be null or a non-empty string. */
  function DeclaredCursor(metadata: Fields): Outcome<Option<bytes>, PageError> {
    if CURSOR !in metadata then Ok(None)
    else
      match metadata[CURSOR]
      case Null => Ok(None)
      case Text(t) => if t == [] then Err(BadCursor) else Ok(Some(t))
      case _ => Err(BadCursor)
  }

  /** The root object, when it has a servers array. */
  function RootOf(body: bytes): (r: Outcome<Fields, PageError>)
    ensures r.Ok? ==> SERVERS in r.value && r.value[SERVERS].Array?
  {
    match JsonParser.Parse(body)
    case Err(e) => Err(InvalidText(e))
    case Ok(root) =>
      if !root.Object? then Err(NotAnObject)
      else if !(SERVERS in root.members && root.members[SERVERS].Array?) then Err(MissingServers)
      else Ok(root.members)
  }

  /** The two cursors. */
  function CursorsOf(root: Fields, wantDeclared: bool): Outcome<(Option<bytes>, Option<bytes>), PageError>
    requires SERVERS in root && root[SERVERS].Array?
  {
    match ObjectMember(root, METADATA)
    case None => if root[SERVERS].items == [] then Ok((None, None)) else Err(MissingMetadata)
    case Some(metadata) =>
      match NextCursor(metadata)
      case Err(e) => Err(e)
      case Ok(next) =>
        if !wantDeclared then Ok((next, None))
        else
          match DeclaredCursor(metadata)
          case Err(e) => Err(e)
          case Ok(declared) => Ok((next, declared))
  }

  ghost function PageOf(body: bytes, sha: Sha, wantDeclared: bool): Outcome<Page, PageError> {
    match RootOf(body)
    case Err(e) => Err(e)
    case Ok(root) =>
      match RecordsOf(root[SERVERS].items, [], sha)
      case Err(e) => Err(e)
      case Ok(records) =>
        match CursorsOf(root, wantDeclared)
        case Err(e) => Err(e)
        case Ok((next, declared)) => Ok(Page(records, next, declared))
  }

  method BuildRecords(entries: seq<Json>, sha: Sha) returns (r: Outcome<seq<Stored>, PageError>)
    ensures r == RecordsOf(entries, [], sha)
  {
    var records: seq<Stored> := [];
    var i := 0;
    while i < |entries|
      invariant 0 <= i <= |entries|
      invariant RecordsOf(entries[i..], records, sha) == RecordsOf(entries, [], sha)
    {
      var built := BuildRecord(entries[i], sha);
      assert entries[i..][1..] == entries[i + 1..];
      if built.Err? { return Err(BadRecord(built.error)); }
      records := records + [Stored(built.value.identity, built.value.canonical)];
      i := i + 1;
    }
    return Ok(records);
  }

  method ReadCursors(root: Fields, wantDeclared: bool) returns (r: Outcome<(Option<bytes>, Option<bytes>), PageError>)
    requires SERVERS in root && root[SERVERS].Array?
    ensures r == CursorsOf(root, wantDeclared)
  {
    var metadata := ObjectMember(root, METADATA);
    if metadata.None? {
      if root[SERVERS].items != [] { return Err(MissingMetadata); }
      return Ok((None, None));
    }
    var next := NextCursor(metadata.value);
    if next.Err? { return Err(next.error); }
    if !wantDeclared { return Ok((next.value, None)); }
    var declared := DeclaredCursor(metadata.value);
    if declared.Err? { return Err(declared.error); }
    return Ok((next.value, declared.value));
  }

  /** parse_page */
  method ParsePage(body: bytes, sha: Sha, wantDeclared: bool) returns (r: Outcome<Page, PageError>)
    ensures r == PageOf(body, sha, wantDeclared)
  {
    var parser := new JsonParser.Parser(body);
    var parsed := parser.Run();
    if parsed.Err? { return Err(InvalidText(parsed.error)); }
    if !parsed.value.Object? { return Err(NotAnObject); }
    var root := parsed.value.members;
    if !(SERVERS in root && root[SERVERS].Array?) { return Err(MissingServers); }
    var records := BuildRecords(root[SERVERS].items, sha);
    if records.Err? { return Err(records.error); }
    var cursors := ReadCursors(root, wantDeclared);
    if cursors.Err? { return Err(cursors.error); }
    return Ok(Page(records.value, cursors.value.0, cursors.value.1));
  }

  /** The record was built from some entry of bounded depth. */
  ghost predicate Written(r: Stored, sha: Sha) {
    exists entry ::
      && Printable(entry, ENTRY_DEPTH)
      && RecordOf(entry, sha).Ok?
      && r == Stored(RecordOf(entry, sha).value.identity, RecordOf(entry, sha).value.canonical)
  }

  lemma {:induction false} RecordsAreWritten(entries: seq<Json>, built: seq<Stored>, sha: Sha)
    requires RecordsOf(entries, built, sha).Ok? && forall e | e in entries :: Printable(e, ENTRY_DEPTH)
    requires forall r | r in built :: Written(r, sha)
    ensures forall r | r in RecordsOf(entries, built, sha).value :: Written(r, sha)
    decreases |entries|
  {
    if entries != [] {
      assert entries[0] in entries;
      var r := RecordOf(entries[0], sha).value;
      var stored := Stored(r.identity, r.canonical);
      assert Written(stored, sha);
      RecordsAreWritten(entries[1..], built + [stored], sha);
    }
  }

  lemma EntriesPrintable(body: bytes)
    requires RootOf(body).Ok?
    ensures forall e | e in RootOf(body).value[SERVERS].items :: Printable(e, ENTRY_DEPTH)
  {
    ParsedIsPrintable(body);
    assert Printable(RootOf(body).value[SERVERS], MAXIMUM_DEPTH - 1);
  }

  /** Every record of an accepted page comes from an entry that leaves room for the record around it. */
  lemma PageRecordsWritten(body: bytes, sha: Sha, wantDeclared: bool)
    requires PageOf(body, sha, wantDeclared).Ok?
    ensures forall r | r in PageOf(body, sha, wantDeclared).value.records :: Written(r, sha)
  {
    EntriesPrintable(body);
    RecordsAreWritten(RootOf(body).value[SERVERS].items, [], sha);
  }

  // What a page is, read off its value.

  /** One record for each entry, in their order. */
  ghost predicate RecordsMatch(entries: seq<Json>, sha: Sha, records: seq<Stored>) {
    AllMatch(entries, records, Matcher(sha))
  }

  ghost predicate AllMatch(entries: seq<Json>, records: seq<Stored>, matches: (Json, Stored) -> bool) {
    |records| == |entries| && forall i | 0 <= i < |entries| :: matches(entries[i], records[i])
  }

  ghost function Matcher(sha: Sha): (Json, Stored) -> bool { (entry: Json, r: Stored) => RecordMatches(entry, sha, r) }

  ghost predicate RecordMatches(entry: Json, sha: Sha, r: Stored) {
    match RecordOf(entry, sha)
    case Ok(record) => r == Stored(record.identity, record.canonical)
    case Err(_) => false
  }

  /** A text that is not empty is the cursor; null, the empty text and nothing at all are none. */
  predicate IsCursor(metadata: Fields, cursor: Option<bytes>) {
    if cursor.Some? then cursor.value != [] && NEXT_CURSOR in metadata && metadata[NEXT_CURSOR] == Text(cursor.value)
    else NEXT_CURSOR in metadata ==> metadata[NEXT_CURSOR] == Null || metadata[NEXT_CURSOR] == Text([])
  }

  /** The same for the declared cursor, where the empty text is refused. */
  predicate IsDeclared(metadata: Fields, cursor: Option<bytes>) {
    if cursor.Some? then cursor.value != [] && CURSOR in metadata && metadata[CURSOR] == Text(cursor.value)
    else CURSOR in metadata ==> metadata[CURSOR] == Null
  }

  predicate HasMetadata(root: Fields) { METADATA in root && root[METADATA].Object? }

  /** The root object of a page: servers, and cursors in the metadata, which only a page without servers may lack. */
  ghost predicate IsPage(root: Fields, sha: Sha, wantDeclared: bool, page: Page) {
    && SERVERS in root && root[SERVERS].Array? && RecordsMatch(root[SERVERS].items, sha, page.records)
    && if HasMetadata(root) then
         && IsCursor(root[METADATA].members, page.next)
         && (if wantDeclared then IsDeclared(root[METADATA].members, page.declared) else page.declared == None)
       else root[SERVERS].items == [] && page.next == None && page.declared == None
  }

  lemma NextCursorMeans(metadata: Fields, cursor: Option<bytes>)
    ensures NextCursor(metadata) == Ok(cursor) <==> IsCursor(metadata, cursor)
  {}

  lemma DeclaredCursorMeans(metadata: Fields, cursor: Option<bytes>)
    ensures DeclaredCursor(metadata) == Ok(cursor) <==> IsDeclared(metadata, cursor)
  {}

  lemma {:induction false} RecordsMean(entries: seq<Json>, sha: Sha, built: seq<Stored>, records: seq<Stored>)
    ensures RecordsOf(entries, built, sha) == Ok(built + records) <==> RecordsMatch(entries, sha, records)
    decreases |entries|, 1
  {
    if entries == [] {
      assert built + records == built <==> records == [];
    } else {
      MatchFirst(entries, records, Matcher(sha));
      if RecordOf(entries[0], sha).Ok? {
        RecordsMeanFrom(entries, sha, built, records, Stored(RecordOf(entries[0], sha).value.identity, RecordOf(entries[0], sha).value.canonical));
      }
    }
  }

  lemma {:induction false} RecordsMeanFrom(entries: seq<Json>, sha: Sha, built: seq<Stored>, records: seq<Stored>, first: Stored)
    requires entries != [] && forall r :: RecordMatches(entries[0], sha, r) <==> r == first
    ensures RecordsOf(entries[1..], built + [first], sha) == Ok(built + records) <==>
            records != [] && records[0] == first && RecordsMatch(entries[1..], sha, records[1..])
    decreases |entries|, 0
  {
    RecordsGrow(entries[1..], sha, built + [first]);
    if records != [] && records[0] == first {
      assert built + records == built + [first] + records[1..];
      RecordsMean(entries[1..], sha, built + [first], records[1..]);
    } else {
      NotFirst(built, first, records);
    }
  }

  lemma NotFirst(built: seq<Stored>, first: Stored, records: seq<Stored>)
    requires records == [] || records[0] != first
    ensures !(built + [first] <= built + records)
  {
    if records != [] { assert (built + records)[|built|] == records[0] && (built + [first])[|built|] == first; }
  }

  /** Records are appended to those already there. */
  lemma {:induction false} RecordsGrow(entries: seq<Json>, sha: Sha, built: seq<Stored>)
    ensures RecordsOf(entries, built, sha).Ok? ==> built <= RecordsOf(entries, built, sha).value
    decreases |entries|
  {
    if entries != [] && RecordOf(entries[0], sha).Ok? {
      var r := RecordOf(entries[0], sha).value;
      RecordsGrow(entries[1..], sha, built + [Stored(r.identity, r.canonical)]);
    }
  }

  lemma MatchFirst(entries: seq<Json>, records: seq<Stored>, matches: (Json, Stored) -> bool)
    requires entries != []
    ensures AllMatch(entries, records, matches) <==>
            records != [] && matches(entries[0], records[0]) && AllMatch(entries[1..], records[1..], matches)
  {
    if records != [] && AllMatch(entries[1..], records[1..], matches) && matches(entries[0], records[0]) {
      forall i | 0 <= i < |entries| ensures matches(entries[i], records[i]) {
        if i > 0 { assert entries[i] == entries[1..][i - 1] && records[i] == records[1..][i - 1]; }
      }
    }
  }

  lemma CursorsMean(root: Fields, wantDeclared: bool, next: Option<bytes>, declared: Option<bytes>)
    requires SERVERS in root && root[SERVERS].Array?
    ensures CursorsOf(root, wantDeclared) == Ok((next, declared)) <==>
            if HasMetadata(root) then
              && IsCursor(root[METADATA].members, next)
              && (if wantDeclared then IsDeclared(root[METADATA].members, declared) else declared == None)
            else root[SERVERS].items == [] && next == None && declared == None
  {
    if HasMetadata(root) {
      NextCursorMeans(root[METADATA].members, next);
      DeclaredCursorMeans(root[METADATA].members, declared);
    }
  }

  lemma RootPage(body: bytes, root: Fields, sha: Sha, wantDeclared: bool, page: Page)
    requires RootOf(body) == Ok(root) && SERVERS in root && root[SERVERS].Array?
    ensures PageOf(body, sha, wantDeclared) == Ok(page) <==> IsPage(root, sha, wantDeclared, page)
  {
    RecordsMean(root[SERVERS].items, sha, [], page.records);
    assert [] + page.records == page.records;
    CursorsMean(root, wantDeclared, page.next, page.declared);
  }

  /** A body is accepted as a page exactly when it is the text of an object that is that page. */
  lemma PageExactly(body: bytes, sha: Sha, wantDeclared: bool, page: Page)
    ensures PageOf(body, sha, wantDeclared) == Ok(page) <==>
            exists root :: JsonParser.Parse(body) == Ok(Object(root)) && IsPage(root, sha, wantDeclared, page)
  {
    if RootOf(body).Ok? { RootPage(body, RootOf(body).value, sha, wantDeclared, page); }
  }

  // The smallest page.

  const EMPTY_PAGE := Ascii("{\"servers\":[]}")

  lemma {:induction false} PlainEscaped(s: bytes)
    requires forall i | 0 <= i < |s| :: s[i] >= 0x20 && s[i] != QUOTE && s[i] != BACKSLASH
    ensures Escaped(s) == s
  {
    if s != [] { PlainEscaped(s[1..]); }
  }

  const NO_SERVERS: Fields := map[SERVERS := Array([])]

  lemma EmptyPageSpelled()
    ensures [OPEN_BRACE] + (([QUOTE] + SERVERS + [QUOTE]) + [COLON] + [OPEN_BRACKET, CLOSE_BRACKET]) + [CLOSE_BRACE] == EMPTY_PAGE
  {}

  lemma NoServersMember()
    ensures SERVERS in NO_SERVERS
    ensures PrintMember(Object(NO_SERVERS), SERVERS) == [QUOTE] + SERVERS + [QUOTE] + [COLON] + [OPEN_BRACKET, CLOSE_BRACKET]
  {
    PlainEscaped(SERVERS);
    assert Print(Array([])) == [OPEN_BRACKET, CLOSE_BRACKET];
  }

  lemma EmptyPagePrinted()
    ensures Print(Object(NO_SERVERS)) == EMPTY_PAGE
  {
    var j := Object(NO_SERVERS);
    InOrderUnique([SERVERS], NO_SERVERS.Keys);
    NoServersMember();
    assert PrintMembers(j, [SERVERS][1..]) == [];
    assert PrintKeys(j, [SERVERS]) == PrintMember(j, SERVERS);
    EmptyPageSpelled();
  }

  lemma EmptyPageRoot()
    ensures RootOf(EMPTY_PAGE) == Ok(NO_SERVERS)
  {
    EmptyPagePrinted();
    AsciiIsText("servers");
    ParsePrint(Object(NO_SERVERS));
  }

  lemma NoServersCursors(wantDeclared: bool)
    ensures SERVERS in NO_SERVERS && CursorsOf(NO_SERVERS, wantDeclared) == Ok((None, None))
  {
    assert METADATA[0] != SERVERS[0];
  }

  lemma PageOfRoot(body: bytes, root: Fields, sha: Sha, wantDeclared: bool)
    requires RootOf(body) == Ok(root) && SERVERS in root && root[SERVERS] == Array([])
    requires CursorsOf(root, wantDeclared) == Ok((None, None))
    ensures PageOf(body, sha, wantDeclared) == Ok(Page([], None, None))
  {
    assert RecordsOf([], [], sha) == Ok([]);
  }

  /** A page without servers needs no metadata and ends the chain. */
  lemma EmptyPage(sha: Sha, wantDeclared: bool)
    ensures PageOf(EMPTY_PAGE, sha, wantDeclared) == Ok(Page([], None, None))
  {
    EmptyPageRoot();
    NoServersCursors(wantDeclared);
    PageOfRoot(EMPTY_PAGE, NO_SERVERS, sha, wantDeclared);
  }

  // A page with a cursor to continue from: {"metadata":{"nextCursor":"a"},"servers":[]}.

  const FIRST_CURSOR := Ascii("a")
  const CURSOR_ONLY: Fields := map[NEXT_CURSOR := Text(FIRST_CURSOR)]
  const WITH_CURSOR: Fields := map[METADATA := Object(CURSOR_ONLY), SERVERS := Array([])]
  ghost const FIRST_PAGE := Print(Object(WITH_CURSOR))

  lemma WithCursorPrintable()
    ensures Printable(Object(WITH_CURSOR), MAXIMUM_DEPTH)
  {
    AsciiIsText("servers");
    AsciiIsText("metadata");
    AsciiIsText("nextCursor");
    AsciiIsText("a");
    assert Printable(Object(CURSOR_ONLY), MAXIMUM_DEPTH - 1);
  }

  lemma FirstIsPage(sha: Sha)
    ensures IsPage(WITH_CURSOR, sha, false, Page([], Some(FIRST_CURSOR), None))
  {
    assert METADATA[0] == 0x6D && SERVERS[0] == 0x73;
    assert WITH_CURSOR[METADATA] == Object(CURSOR_ONLY) && WITH_CURSOR[SERVERS] == Array([]);
  }

  lemma FirstPageRead(sha: Sha)
    ensures PageOf(FIRST_PAGE, sha, false) == Ok(Page([], Some(FIRST_CURSOR), None))
  {
    WithCursorPrintable();
    ParsePrint(Object(WITH_CURSOR));
    FirstIsPage(sha);
    PageExactly(FIRST_PAGE, sha, false, Page([], Some(FIRST_CURSOR), None));
  }
}
