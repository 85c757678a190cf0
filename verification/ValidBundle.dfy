/** validate_bundle: the manifest of a finished bundle against its files, and the canonical file line by line. */
module ValidBundle {
  import opened Bytes
  import opened Wrappers
  import opened Record
  import opened Page
  import opened CanonicalFile
  import opened Collection

  const MAXIMUM_CANONICAL_BYTES := 512 * 1024 * 1024

  /**
   * manifest.json: digest and size of every file, the counts, the digest of the canonical file, the start and end of the
   * run. The flag says whether the validator accepts everything else in it and in pages.jsonl: URLs, mode, formats.
   */
  datatype Manifest = Manifest(
    raw: seq<(bytes, nat)>, lines: (bytes, nat), canonical: (bytes, nat), errors: (bytes, nat),
    pages: nat, received: nat, unique: nat, snapshot: bytes, started: nat, completed: nat, othersOk: bool)

  /** The directory of a bundle: the collected pages, the three files written at the end, and the success marker. */
  datatype Bundle = Bundle(
    disk: Disk, canonical: Option<bytes>, errors: Option<bytes>, manifest: Option<Manifest>, marker: bool)

  /** Does the file of a raw page have this digest and size? */
  predicate HasArtifact(env: Env, raw: map<nat, bytes>, n: nat, artifact: (bytes, nat)) {
    n in raw && Artifact(env, raw[n]) == artifact
  }

  predicate LineMatches(env: Env, raw: map<nat, bytes>, line: PageLine) {
    HasArtifact(env, raw, line.number, (line.digest, line.size))
  }

  ghost predicate FilesMatch(env: Env, b: Bundle, m: Manifest) {
    && (forall i | 0 <= i < |m.raw| :: HasArtifact(env, b.disk.raw, i + 1, m.raw[i]))
    && b.disk.lines.Some? && m.lines == (env.linesDigest(b.disk.lines.value), |b.disk.lines.value|)
    && b.canonical.Some? && m.canonical == Artifact(env, b.canonical.value)
    && b.errors.Some? && m.errors == Artifact(env, b.errors.value)
  }

  /** What validate_bundle accepts, the success marker aside. */
  ghost predicate Validates(env: Env, b: Bundle) {
    && b.manifest.Some?
    && var m := b.manifest.value;
    && m.othersOk && m.started <= m.completed && FilesMatch(env, b, m)
    && |b.canonical.value| <= MAXIMUM_CANONICAL_BYTES && m.snapshot == env.sha(b.canonical.value)
    && CheckLines(Lines(b.canonical.value), [], 0, env.sha) == Ok(m.unique)
    && (forall i | 0 <= i < |b.disk.lines.value| :: LineMatches(env, b.disk.raw, b.disk.lines.value[i]))
    && |b.disk.lines.value| == m.pages
  }

  method CheckArtifacts(env: Env, b: Bundle, m: Manifest) returns (ok: bool)
    ensures ok <==> FilesMatch(env, b, m)
  {
    var i := 0;
    while i < |m.raw|
      invariant 0 <= i <= |m.raw|
      invariant forall k | 0 <= k < i :: HasArtifact(env, b.disk.raw, k + 1, m.raw[k])
    {
      if !HasArtifact(env, b.disk.raw, i + 1, m.raw[i]) { return false; }
      i := i + 1;
    }
    if b.disk.lines.None? || m.lines != (env.linesDigest(b.disk.lines.value), |b.disk.lines.value|) { return false; }
    if b.canonical.None? || m.canonical != Artifact(env, b.canonical.value) { return false; }
    return b.errors.Some? && m.errors == Artifact(env, b.errors.value);
  }

  /** validate_bundle_impl */
  method ValidateBundle(env: Env, b: Bundle, requireMarker: bool) returns (ok: bool)
    ensures ok <==> Validates(env, b) && (requireMarker ==> b.marker)
  {
    if requireMarker && !b.marker { return false; }
    if b.manifest.None? { return false; }
    var m := b.manifest.value;
    if !m.othersOk || m.completed < m.started { return false; }
    ok := CheckArtifacts(env, b, m);
    if !ok { return false; }
    var canonical := b.canonical.value;
    if |canonical| > MAXIMUM_CANONICAL_BYTES || env.sha(canonical) != m.snapshot { return false; }
    var count := ValidateCanonical(canonical, env.sha);
    if count != Ok(m.unique) { return false; }
    var lines := b.disk.lines.value;
    var i := 0;
    while i < |lines|
      invariant 0 <= i <= |lines|
      invariant forall k | 0 <= k < i :: LineMatches(env, b.disk.raw, lines[k])
    {
      if !LineMatches(env, b.disk.raw, lines[i]) { return false; }
      i := i + 1;
    }
    return |lines| == m.pages;
  }

  /** A file that exists with this digest and size. */
  predicate Attested(env: Env, file: Option<bytes>, digest: bytes, size: nat) {
    match file
    case None => false
    case Some(data) => env.sha(data) == digest && |data| == size
  }

  function Raw(b: Bundle, n: nat): Option<bytes> { if n in b.disk.raw then Some(b.disk.raw[n]) else None }

  /** Every accepted line of the canonical file in strictly ascending order of identities, and their number. */
  ghost predicate AcceptedInOrder(text: bytes, sha: Sha, count: nat) {
    var lines := Lines(text);
    && count == |lines| && (forall i | 0 <= i < |lines| :: LineIdentity(lines[i], sha).Ok?)
    && forall i, j | 0 <= i < j < |lines| :: Less(LineIdentity(lines[i], sha).value, LineIdentity(lines[j], sha).value)
  }

  /** What the validator accepts, file by file. */
  lemma ValidatesExactly(env: Env, b: Bundle)
    requires b.manifest.Some? && b.disk.lines.Some?
    ensures var m, lines := b.manifest.value, b.disk.lines.value;
            Validates(env, b) <==>
              && m.othersOk && m.started <= m.completed
              && (forall i: nat | i < |m.raw| :: Attested(env, Raw(b, i + 1), m.raw[i].0, m.raw[i].1))
              && (forall i: nat | i < |lines| :: Attested(env, Raw(b, lines[i].number), lines[i].digest, lines[i].size))
              && m.lines.0 == env.linesDigest(lines) && m.lines.1 == m.pages == |lines|
              && Attested(env, b.canonical, m.canonical.0, m.canonical.1) && m.canonical.1 <= 536_870_912
              && Attested(env, b.errors, m.errors.0, m.errors.1)
              && m.snapshot == m.canonical.0 && AcceptedInOrder(b.canonical.value, env.sha, m.unique)
  {
    var m, lines := b.manifest.value, b.disk.lines.value;
    forall i: nat | i < |m.raw|
      ensures Attested(env, Raw(b, i + 1), m.raw[i].0, m.raw[i].1) <==> HasArtifact(env, b.disk.raw, i + 1, m.raw[i])
    {}
    forall i: nat | i < |lines|
      ensures Attested(env, Raw(b, lines[i].number), lines[i].digest, lines[i].size) <==> LineMatches(env, b.disk.raw, lines[i])
    {}
    if b.canonical.Some? { CountedExactly(b.canonical.value, env.sha, m.unique); }
  }

  lemma CountedExactly(text: bytes, sha: Sha, count: nat)
    ensures CheckLines(Lines(text), [], 0, sha) == Ok(count) <==> AcceptedInOrder(text, sha, count)
  {
    ValidExactly(Lines(text), sha);
  }

  // The bundle of a whole chain.

  ghost predicate EndsAt(env: Env, n: nat) { Chain(env, n).Some? && Ended(Chain(env, n).value) }

  ghost function FinalText(env: Env, n: nat): bytes
    requires Chain(env, n).Some?
  {
    CanonicalText(Chain(env, n).value.records)
  }

  ghost function FinalCount(env: Env, n: nat): nat
    requires Chain(env, n).Some?
  {
    |Identities(Chain(env, n).value.records)|
  }

  /** Pages, canonical file and manifest of a chain of n pages; the diagnostics file is left open. */
  ghost predicate Finished(env: Env, n: nat, b: Bundle) {
    && EndsAt(env, n)
    && RawHolds(env, b.disk.raw, n)
    && b.disk.lines.Some? && |b.disk.lines.value| == n && Describes(env, b.disk.lines.value)
    && b.canonical == Some(FinalText(env, n))
    && b.manifest.Some?
    && var m := b.manifest.value;
    && m.pages == n && m.received == |Chain(env, n).value.records| && m.unique == FinalCount(env, n)
    && |m.raw| == n && (forall i | 0 <= i < n :: HasArtifact(env, b.disk.raw, i + 1, m.raw[i]))
    && m.lines == (env.linesDigest(b.disk.lines.value), n)
    && m.canonical == Artifact(env, FinalText(env, n)) && m.snapshot == env.sha(FinalText(env, n))
    && m.errors == Artifact(env, [])
  }

  /** What the self-validation depends on once the files are written. */
  ghost predicate Acceptable(env: Env, n: nat, started: nat, completed: nat, othersOk: bool)
    requires Chain(env, n).Some?
  {
    && othersOk && started <= completed && |FinalText(env, n)| <= MAXIMUM_CANONICAL_BYTES
    && CheckLines(Lines(FinalText(env, n)), [], 0, env.sha) == Ok(FinalCount(env, n))
  }

  /** A finished bundle validates exactly when its canonical file, times and the rest do and its diagnostics file is empty. */
  lemma FinishedValidates(env: Env, n: nat, b: Bundle)
    requires Finished(env, n, b)
    ensures var m := b.manifest.value;
            Validates(env, b) <==> b.errors == Some([]) && Acceptable(env, n, m.started, m.completed, m.othersOk)
  {
    var lines := b.disk.lines.value;
    forall i | 0 <= i < n ensures LineMatches(env, b.disk.raw, lines[i]) {
      assert LineOf(env, lines[i], i + 1) && RawPage(env, b.disk.raw, i + 1);
    }
  }

  /** With this project's parser, every record of a chain comes from a printable entry. */
  lemma {:induction false} ChainWritten(env: Env, n: nat)
    requires env.parse == RegistryParser(env.sha) && Chain(env, n).Some?
    ensures AllWritten(Chain(env, n).value.records, env.sha)
  {
    if n > 0 {
      ChainWritten(env, n - 1);
      var before := Chain(env, n - 1).value;
      var body := env.server(before.next);
      var page := env.parse(body, false).value;
      assert page == PageOf(body, env.sha, false).value;
      PageRecordsWritten(body, env.sha, false);
      WrittenTogether(before.records, page.records, env.sha);
    }
  }

  lemma WrittenTogether(a: seq<Stored>, b: seq<Stored>, sha: Sha)
    requires AllWritten(a, sha) && forall r | r in b :: Written(r, sha)
    ensures AllWritten(a + b, sha)
  {}

  /**
   * From the server's bytes to the accepted file: with this project's parser the canonical file of a whole chain passes
   * the line-by-line validation, as that many records, exactly when no line is over the validator's cap.
   */
  lemma CollectedFileValidates(env: Env, n: nat)
    requires env.parse == RegistryParser(env.sha) && Chain(env, n).Some?
    ensures CheckLines(Lines(FinalText(env, n)), [], 0, env.sha) == Ok(FinalCount(env, n)) <==>
            WithinCap(Chain(env, n).value.records)
  {
    ChainWritten(env, n);
    ChainConsistent(env, n);
    WrittenFileValidates(Chain(env, n).value.records, env.sha);
  }
}
