/** index_registry_bundle: a validated bundle goes into the catalog line by line. */
module CatalogIndex {
  import opened Bytes
  import opened Wrappers
  import opened Json
  import opened Record
  import opened CanonicalFile
  import opened Collection
  import opened ValidBundle
  import opened CatalogOrder
  import opened CatalogImport
  import JsonParser

  /** What the importer makes of the members other than the identity: description, repository, packages, remotes. */
  type Details = bytes -> bool

  function Unreadable(line: bytes): Entry { Entry([], [], [], line, false) }

  /** parse_registry_canonical_record, up to the checks of Readable. */
  function EntryOf(line: bytes, details: Details): (e: Entry)
    ensures e.line == line
  {
    match JsonParser.Parse(line)
    case Err(_) => Unreadable(line)
    case Ok(root) =>
      if !root.Object? then Unreadable(line)
      else
        match (StringMember(root.members, SERVER_IDENTIFIER), StringMember(root.members, SERVER_VERSION),
               StringMember(root.members, CANONICAL_SHA256))
        case (Some(name), Some(version), Some(digest)) => Entry(name, version, digest, line, details(line))
        case _ => Unreadable(line)
  }

  function ReaderOf(details: Details): Reader { (line: bytes) => EntryOf(line, details) }

  ghost function EntriesOf(lines: seq<bytes>, details: Details): (es: seq<Entry>)
    ensures ReadAs(lines, ReaderOf(details), es)
  {
    seq(|lines|, i requires 0 <= i < |lines| => EntryOf(lines[i], details))
  }

  /** The importer reads an accepted line as the identity the validator ordered it by. */
  lemma EntryIdentity(line: bytes, sha: Sha, details: Details)
    requires LineIdentity(line, sha).Ok?
    ensures LineIdentity(line, sha).value == IdentityOf(EntryOf(line, details))
    ensures var e := EntryOf(line, details);
            && (e.readable <==> details(line))
            && exists m: Fields :: line == Print(Object(m)) && e.digest == sha(Print(Object(m - {OBSERVED_AT, CANONICAL_SHA256})))
  {
    var m := JsonParser.Parse(line).value.members;
    assert line == Print(Object(m));
  }

  /** The entries of a file that passed validation are ordered. */
  lemma ValidatedIsOrdered(lines: seq<bytes>, sha: Sha, details: Details)
    requires CheckLines(lines, [], 0, sha).Ok?
    ensures Ordered(EntriesOf(lines, details)) && CheckLines(lines, [], 0, sha).value == |lines|
  {
    ValidExactly(lines, sha);
    forall i | 0 <= i < |lines|
      ensures LineIdentity(lines[i], sha).Ok? && LineIdentity(lines[i], sha).value == IdentityOf(EntryOf(lines[i], details))
    {
      EntryIdentity(lines[i], sha, details);
    }
  }

  /** The records of a bundle, line by line. */
  ghost function Entries(bundle: Bundle, details: Details): seq<Entry> {
    if bundle.canonical.Some? then EntriesOf(Lines(bundle.canonical.value), details) else []
  }

  /** A valid, marked bundle within the record limit. */
  ghost predicate Fitting(env: Env, bundle: Bundle, limits: Limits) {
    bundle.marker && Validates(env, bundle) && bundle.manifest.value.unique <= limits.records
  }

  /** What a successful import of a bundle has done to the catalog. */
  twostate predicate IndexedBundle(c: Catalog, bundle: Bundle, details: Details, stats: Stats)
    requires bundle.manifest.Some?
    reads c
  {
    && Imported(Entries(bundle, details), old(c.servers), old(c.links), old(c.nextSnapshot), c.servers, c.links, stats)
    && c.snapshots == old(c.snapshots)[bundle.manifest.value.snapshot := old(c.nextSnapshot)]
  }

  /**
   * One transaction, rolled back on any failure. The entries are the lines of the validated file, so they are ordered and
   * the counts agree: only limits, unreadable records and the database can stop the import.
   */
  method IndexBundle(c: Catalog, env: Env, bundle: Bundle, details: Details, limits: Limits) returns (r: ImportResult)
    requires c.Valid()
    modifies c`clock, c`snapshots, c`servers, c`links, c`nextServer, c`nextSnapshot
    ensures c.Valid()
    ensures r == Refused(BundleInvalid) <==> !(bundle.marker && Validates(env, bundle))
    ensures r == AlreadyIndexed <==> Fitting(env, bundle, limits) && bundle.manifest.value.snapshot in old(c.snapshots)
    ensures !r.Indexed? ==> c.snapshots == old(c.snapshots) && c.servers == old(c.servers) && c.links == old(c.links)
    ensures r.Indexed? ==> Fitting(env, bundle, limits) && bundle.manifest.value.snapshot !in old(c.snapshots)
    ensures r.Indexed? ==> Importable(Entries(bundle, details), limits) && |Entries(bundle, details)| == bundle.manifest.value.unique
    ensures r.Indexed? ==> IndexedBundle(c, bundle, details, r.stats)
    ensures old(c.clock) <= c.clock
    ensures r.Indexed? ==> c.clock == old(c.clock) + bundle.manifest.value.unique + 1 && NoFailure(c.fails, old(c.clock), c.clock)
    ensures r.Refused? && Fitting(env, bundle, limits) && NoFailure(c.fails, old(c.clock), c.clock) ==> !Importable(Entries(bundle, details), limits)
  {
    var valid := ValidateBundle(env, bundle, true);
    if !valid { return Refused(BundleInvalid); }
    var manifest := bundle.manifest.value;
    if manifest.unique > limits.records { return Refused(LimitExceeded); }
    if manifest.snapshot in c.snapshots { return AlreadyIndexed; }
    var lines := Lines(bundle.canonical.value);
    ValidatedIsOrdered(lines, env.sha, details);
    r := c.Import(lines, ReaderOf(details), Entries(bundle, details), manifest.snapshot, manifest.unique, limits);
  }

  /** A second import of the same bundle changes nothing. */
  method IndexAgain(c: Catalog, env: Env, bundle: Bundle, details: Details, limits: Limits)
    returns (first: ImportResult, second: ImportResult)
    requires c.Valid()
    modifies c`clock, c`snapshots, c`servers, c`links, c`nextServer, c`nextSnapshot
    ensures c.Valid()
    ensures first.Indexed? ==> second == AlreadyIndexed && bundle.manifest.Some? && IndexedBundle(c, bundle, details, first.stats)
  {
    first := IndexBundle(c, env, bundle, details, limits);
    second := IndexBundle(c, env, bundle, details, limits);
  }
}
