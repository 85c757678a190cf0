/** Collecting pages, committing each with three atomic replaces, and resuming after a crash. */
module Collection {
  import opened Bytes
  import opened Wrappers
  import opened Record
  import opened Page
  import opened CanonicalFile

  /** parse_page; the flag asks for the cursor the page declares for itself, as resume does. */
  type PageParser = (bytes, bool) -> Option<Page>

  /** The whole registry, or what changed since an earlier snapshot. */
  datatype Mode = Full | Incremental(updatedSince: bytes, baseDigest: bytes, baseCompleted: bytes)

  /** The fixed page chain a server offers, and the limits of the run. */
  datatype Env = Env(
    server: Option<bytes> -> bytes,
    parse: PageParser,
    sha: Sha,
    linesDigest: seq<PageLine> -> bytes,
    maximumPages: nat,
    maximumPageBytes: nat,
    maximumRecords: nat,
    mode: Mode)

  /** A line of raw/pages.jsonl; the stamp stands for the retrieval time, zero in a reconstructed line. */
  datatype PageLine = PageLine(number: nat, input: Option<bytes>, output: Option<bytes>, digest: bytes, size: nat, stamp: nat)

  /**
   * checkpoint.json: counts, the cursor to continue with, digest and size of the last page and of pages.jsonl,
   * and the mode, which version 2 does not record.
   */
  datatype Head = Head(
    completed: nat, records: nat, next: Option<bytes>, last: Option<(bytes, nat)>, linesDigest: bytes, linesSize: nat,
    mode: Option<Mode>)

  /** The files of a partial bundle. */
  datatype Disk = Disk(raw: map<nat, bytes>, lines: Option<seq<PageLine>>, head: Option<Head>)

  /** What the collector holds in memory after some pages. */
  datatype State = State(pages: nat, records: seq<Stored>, next: Option<bytes>, cursors: set<bytes>)

  const START := State(0, [], None, {})

  function WithCursor(cursors: set<bytes>, next: Option<bytes>): set<bytes> {
    if next.Some? then cursors + {next.value} else cursors
  }

  /** Asking for the declared cursor changes nothing else, but may refuse the page. */
  ghost predicate ParserOk(parse: PageParser) {
    forall b {:trigger parse(b, true)} | parse(b, true).Some? ::
      parse(b, false).Some? && parse(b, false).value.records == parse(b, true).value.records
      && parse(b, false).value.next == parse(b, true).value.next
  }

  /** The parser of this project. */
  ghost function RegistryParser(sha: Sha): PageParser {
    (body: bytes, declared: bool) => match PageOf(body, sha, declared) { case Ok(p) => Some(p) case Err(_) => None }
  }

  lemma RegistryParserOk(sha: Sha)
    ensures ParserOk(RegistryParser(sha))
  {
    forall b ensures PageOf(b, sha, true).Ok? ==> SamePage(PageOf(b, sha, true), PageOf(b, sha, false)) {
      PageWithout(b, sha);
    }
  }

  ghost predicate SamePage(a: Outcome<Page, PageError>, b: Outcome<Page, PageError>) {
    a.Ok? && b.Ok? && a.value.records == b.value.records && a.value.next == b.value.next
  }

  lemma PageWithout(b: bytes, sha: Sha)
    ensures PageOf(b, sha, true).Ok? ==> SamePage(PageOf(b, sha, true), PageOf(b, sha, false))
  {}

  // The chain of pages an uninterrupted run goes through.

  /** One accepted page; None when the run stops with an error instead. */
  ghost function NextPage(env: Env, st: State): Option<State> {
    var body := env.server(st.next);
    if st.pages >= env.maximumPages || |body| > env.maximumPageBytes || env.parse(body, false).None? then None
    else
      var page := env.parse(body, false).value;
      if |page.records| > env.maximumRecords - |st.records| then None
      else if page.next.Some? && page.next.value in st.cursors then None
      else if !Consistent(st.records + page.records) then None
      else Some(State(st.pages + 1, st.records + page.records, page.next, WithCursor(st.cursors, page.next)))
  }

  ghost predicate Ended(st: State) { st.pages != 0 && st.next.None? }

  /** The state after n pages, when the chain has that many acceptable pages. */
  ghost function Chain(env: Env, n: nat): (r: Option<State>)
    ensures r.Some? ==> r.value.pages == n
  {
    if n == 0 then Some(START)
    else
      match Chain(env, n - 1)
      case None => None
      case Some(st) => if Ended(st) then None else NextPage(env, st)
  }

  ghost function Body(env: Env, n: nat): bytes
    requires n > 0 && Chain(env, n).Some?
  {
    env.server(Chain(env, n - 1).value.next)
  }

  lemma {:induction false} ChainPrefix(env: Env, m: nat, n: nat)
    requires m <= n && Chain(env, n).Some?
    ensures Chain(env, m).Some? && (m < n ==> !Ended(Chain(env, m).value))
    decreases n
  {
    if m < n {
      if m < n - 1 { ChainPrefix(env, m, n - 1); }
    }
  }

  /** A chain ends at one place only. */
  lemma EndUnique(env: Env, m: nat, n: nat)
    requires Chain(env, m).Some? && Ended(Chain(env, m).value)
    requires Chain(env, n).Some? && Ended(Chain(env, n).value)
    ensures m == n
  {
    if m < n { ChainPrefix(env, m, n); }
    if n < m { ChainPrefix(env, n, m); }
  }

  lemma {:induction false} ChainConsistent(env: Env, n: nat)
    requires Chain(env, n).Some?
    ensures Consistent(Chain(env, n).value.records)
    ensures n > 0 ==> |Chain(env, n).value.records| <= env.maximumRecords && n <= env.maximumPages
  {}

  // What resume rebuilds from a partial bundle.

  /** The loop of reconstruct_state over pages 1..n of the raw directory. */
  ghost function Rebuild(env: Env, raw: map<nat, bytes>, n: nat): (r: Option<State>)
    ensures r.Some? ==> r.value.pages == n
  {
    if n == 0 then Some(START)
    else
      match Rebuild(env, raw, n - 1)
      case None => None
      case Some(st) => RebuildPage(env, raw, st)
  }

  ghost function RebuildPage(env: Env, raw: map<nat, bytes>, st: State): (r: Option<State>)
    ensures r.Some? ==> r.value.pages == st.pages + 1
  {
    var n := st.pages + 1;
    if n !in raw || |raw[n]| > env.maximumPageBytes || env.parse(raw[n], true).None? then None
    else
      var page := env.parse(raw[n], true).value;
      if |st.records + page.records| > env.maximumRecords then None
      else if n > 1 && st.next.None? then None
      else if page.declared.Some? && page.declared != st.next then None
      else if page.next.Some? && page.next.value in st.cursors then None
      else Some(State(n, st.records + page.records, page.next, WithCursor(st.cursors, page.next)))
  }

  ghost predicate LinesOk(lines: seq<PageLine>, next: Option<bytes>) {
    && (forall i | 0 <= i < |lines| :: lines[i].number == i + 1)
    && (if lines == [] then None else lines[|lines| - 1].output) == next
  }

  /** checkpoint_matches, for versions 2 and 3. */
  ghost predicate HeadMatches(env: Env, disk: Disk, st: State)
    requires disk.head.Some?
  {
    var h := disk.head.value;
    && h.completed == st.pages && h.records == |st.records| && h.next == st.next
    && (if h.completed == 0 then h.last == None
        else h.completed in disk.raw && h.last == Some(Artifact(env, disk.raw[h.completed])))
    && disk.lines.Some?
    && env.linesDigest(disk.lines.value) == h.linesDigest && |disk.lines.value| == h.linesSize
    && LinesOk(disk.lines.value, st.next)
    && |disk.lines.value| == h.completed
    && ModeAccepted(env, h)
  }

  function Artifact(env: Env, body: bytes): (bytes, nat) { (env.sha(body), |body|) }

  /** Version 2 is from before there was an incremental mode. */
  predicate ModeAccepted(env: Env, h: Head) { h.mode == Some(env.mode) || (h.mode == None && env.mode.Full?) }

  /** Is the recorded mode that of the run? */
  predicate SameMode(recorded: Option<Mode>, mode: Mode) {
    match recorded
    case None => mode == Full
    case Some(m) => m == mode
  }

  /** The lines reconstruct_state writes for pages 1..n. */
  ghost function RebuiltLines(env: Env, raw: map<nat, bytes>, n: nat): (r: seq<PageLine>)
    requires Rebuild(env, raw, n).Some?
    ensures |r| == n
  {
    if n == 0 then []
    else
      RebuiltLines(env, raw, n - 1) +
      [RebuiltLine(env, raw[n], n, Rebuild(env, raw, n - 1).value.next, Rebuild(env, raw, n).value.next)]
  }

  function RebuiltLine(env: Env, body: bytes, n: nat, input: Option<bytes>, output: Option<bytes>): PageLine {
    PageLine(n, input, output, env.sha(body), |body|, 0)
  }

  /** reconstruct_registry_checkpoint: every raw page is taken as committed. */
  ghost function Reconstructed(env: Env, disk: Disk): Option<Disk> {
    var n := |disk.raw|;
    if n == 0 || n > env.maximumPages || Rebuild(env, disk.raw, n).None? then None
    else
      var st, lines := Rebuild(env, disk.raw, n).value, RebuiltLines(env, disk.raw, n);
      Some(Disk(disk.raw, Some(lines), Some(HeadFor(env, st, Some(Artifact(env, disk.raw[n])), lines).(mode := None))))
  }

  /** What a resume reads: a bundle without a checkpoint gets one first, unless the resume is incremental. */
  ghost function Prepared(env: Env, disk: Disk): Option<Disk> {
    if disk.head.Some? then Some(disk)
    else if env.mode.Full? then Reconstructed(env, disk)
    else None
  }

  /** The state a resume with a checkpoint starts from, or a refusal. */
  ghost function HeadState(env: Env, disk: Disk): Option<State>
    requires disk.head.Some?
  {
    var n := disk.head.value.completed;
    if n > env.maximumPages then None
    else
      match Rebuild(env, disk.raw, n)
      case None => None
      case Some(st) => if HeadMatches(env, disk, st) && Consistent(st.records) then Some(st) else None
  }

  ghost function ResumeState(env: Env, disk: Disk): Option<State> {
    var prepared := Prepared(env, disk);
    if prepared.Some? then HeadState(env, prepared.value) else None
  }

  // What a partial bundle looks like, wherever its process stopped.

  ghost function HeadFor(env: Env, st: State, last: Option<(bytes, nat)>, lines: seq<PageLine>): Head {
    Head(st.pages, |st.records|, st.next, last, env.linesDigest(lines), |lines|, Some(env.mode))
  }

  ghost function LastFor(env: Env, n: nat): Option<(bytes, nat)>
    requires Chain(env, n).Some?
  {
    if n == 0 then None else Some(Artifact(env, Body(env, n)))
  }

  ghost predicate RawHolds(env: Env, raw: map<nat, bytes>, n: nat)
    requires Chain(env, n).Some?
  {
    forall i | 1 <= i <= n :: RawPage(env, raw, i)
  }

  /** Page i of the chain is on disk. */
  ghost predicate RawPage(env: Env, raw: map<nat, bytes>, i: nat)
    requires i > 0
  {
    Chain(env, i).Some? && i in raw && raw[i] == Body(env, i)
  }

  /** A line of pages.jsonl for page i of the chain. */
  ghost predicate LineOf(env: Env, line: PageLine, i: nat)
    requires i > 0
  {
    && Chain(env, i).Some? && line.number == i
    && line.input == Chain(env, i - 1).value.next && line.output == Chain(env, i).value.next
    && (line.digest, line.size) == Artifact(env, Body(env, i))
  }

  /** One line for each page of the chain. */
  ghost predicate Describes(env: Env, lines: seq<PageLine>) {
    forall i | 0 <= i < |lines| :: LineOf(env, lines[i], i + 1)
  }

  lemma DescribesIsOk(env: Env, lines: seq<PageLine>)
    requires Describes(env, lines) && Chain(env, |lines|).Some?
    ensures LinesOk(lines, Chain(env, |lines|).value.next)
  {
    if lines != [] { assert LineOf(env, lines[|lines| - 1], |lines|); }
  }

  /**
   * Without a head, the raw pages are those of the chain and all of them count. With one, it describes a prefix of the
   * chain whose pages are on disk, and pages.jsonl agrees with it or has another length.
   */
  ghost predicate Good(env: Env, disk: Disk) {
    match disk.head
    case None => Chain(env, |disk.raw|).Some? && RawHolds(env, disk.raw, |disk.raw|)
    case Some(h) =>
      && Chain(env, h.completed).Some? && h.completed <= env.maximumPages
      && var st := Chain(env, h.completed).value;
      && h.records == |st.records| && h.next == st.next && h.last == LastFor(env, h.completed)
      && RawHolds(env, disk.raw, h.completed)
      && disk.lines.Some?
      && (|disk.lines.value| == h.completed ==>
            h == HeadFor(env, st, h.last, disk.lines.value).(mode := h.mode) && Describes(env, disk.lines.value))
  }

  /** Every committed page names, if any, the cursor it was requested with. */
  ghost predicate Continuous(env: Env, n: nat)
    requires Chain(env, n).Some?
  {
    forall i | 1 <= i <= n :: PageContinuous(env, i)
  }

  ghost predicate PageContinuous(env: Env, i: nat)
    requires i > 0
  {
    Chain(env, i).Some? && env.parse(Body(env, i), true).Some?
    && var declared := env.parse(Body(env, i), true).value.declared;
       declared.Some? ==> declared == Chain(env, i - 1).value.next
  }

  lemma {:induction false} RebuildFollowsChain(env: Env, raw: map<nat, bytes>, n: nat)
    requires ParserOk(env.parse) && Chain(env, n).Some? && RawHolds(env, raw, n)
    ensures Rebuild(env, raw, n).Some? ==> Rebuild(env, raw, n) == Chain(env, n)
    ensures Rebuild(env, raw, n).Some? <==> Continuous(env, n)
  {
    if n > 0 {
      ChainPrefix(env, n - 1, n);
      RebuildFollowsChain(env, raw, n - 1);
      ChainConsistent(env, n);
      if Rebuild(env, raw, n - 1).Some? {
        assert RawPage(env, raw, n);
        assert PageContinuous(env, n) <==> RebuildPage(env, raw, Chain(env, n - 1).value).Some?;
      }
    }
  }

  /** Reading back the first i pages gives the chain's state, for every i up to n. */
  ghost predicate RebuildsChain(env: Env, raw: map<nat, bytes>, n: nat) {
    forall i: nat | i <= n :: Chain(env, i).Some? && Rebuild(env, raw, i) == Chain(env, i)
  }

  lemma RebuiltLineOf(env: Env, raw: map<nat, bytes>, n: nat)
    requires n > 0 && RawPage(env, raw, n) && RebuildsChain(env, raw, n)
    ensures Describes(env, RebuiltLines(env, raw, n - 1)) ==> Describes(env, RebuiltLines(env, raw, n))
  {
    var input, output := Chain(env, n - 1).value.next, Chain(env, n).value.next;
    assert LineOf(env, RebuiltLine(env, raw[n], n, input, output), n);
    DescribesMore(env, RebuiltLines(env, raw, n - 1), RebuiltLine(env, raw[n], n, input, output));
  }

  lemma DescribesMore(env: Env, lines: seq<PageLine>, line: PageLine)
    requires LineOf(env, line, |lines| + 1)
    ensures Describes(env, lines) ==> Describes(env, lines + [line])
  {}

  lemma {:induction false} RebuiltDescribes(env: Env, raw: map<nat, bytes>, n: nat)
    requires Chain(env, n).Some? && RawHolds(env, raw, n) && RebuildsChain(env, raw, n)
    ensures Describes(env, RebuiltLines(env, raw, n))
  {
    if n > 0 {
      RebuiltDescribes(env, raw, n - 1);
      assert RawPage(env, raw, n);
      RebuiltLineOf(env, raw, n);
    }
  }

  /** A checkpoint and pages.jsonl made from raw pages are what their process would have left. */
  lemma ReconstructedIsGood(env: Env, disk: Disk)
    requires ParserOk(env.parse) && Good(env, disk) && disk.head.None? && Reconstructed(env, disk).Some?
    ensures Good(env, Reconstructed(env, disk).value)
    ensures Reconstructed(env, disk).value.head.value.completed == |disk.raw| == |Reconstructed(env, disk).value.lines.value|
  {
    var n := |disk.raw|;
    forall i: nat | i <= n ensures Chain(env, i).Some? && Rebuild(env, disk.raw, i) == Chain(env, i) {
      RebuildPrefix(env, disk.raw, i, n);
      ChainPrefix(env, i, n);
      RebuildFollowsChain(env, disk.raw, i);
    }
    RebuiltDescribes(env, disk.raw, n);
    assert RawPage(env, disk.raw, n);
    ChainConsistent(env, n);
  }

  lemma {:induction false} RebuildPrefix(env: Env, raw: map<nat, bytes>, m: nat, n: nat)
    requires m <= n && Rebuild(env, raw, n).Some?
    ensures Rebuild(env, raw, m).Some?
    decreases n
  {
    if m < n { RebuildPrefix(env, raw, m, n - 1); }
  }

  /** The pages a resume of this bundle would start from. */
  ghost function Committed(disk: Disk): nat { if disk.head.Some? then disk.head.value.completed else |disk.raw| }

  /**
   * A resume of any reachable partial bundle with a checkpoint is accepted exactly when pages.jsonl has one line per
   * committed page, the checkpoint is of the same mode, and every committed page declares, if anything, the cursor it
   * was requested with; it then starts from exactly those pages.
   */
  lemma HeadExactly(env: Env, disk: Disk)
    requires ParserOk(env.parse) && Good(env, disk) && disk.head.Some?
    ensures var n := disk.head.value.completed;
            && (HeadState(env, disk).Some? <==>
                  |disk.lines.value| == n && SameMode(disk.head.value.mode, env.mode) && Continuous(env, n))
            && (HeadState(env, disk).Some? ==> HeadState(env, disk) == Chain(env, n))
  {
    var n := disk.head.value.completed;
    RebuildFollowsChain(env, disk.raw, n);
    ChainConsistent(env, n);
    if n > 0 { assert RawPage(env, disk.raw, n); }
    if |disk.lines.value| == n { DescribesIsOk(env, disk.lines.value); }
  }

  /** A bundle without a checkpoint is resumed exactly in full mode, with at least one page, under the same condition on cursors. */
  lemma ResumeExactly(env: Env, disk: Disk)
    requires ParserOk(env.parse) && Good(env, disk)
    ensures ResumeState(env, disk).Some? <==>
              && Chain(env, Committed(disk)).Some? && Continuous(env, Committed(disk))
              && if disk.head.Some? then |disk.lines.value| == Committed(disk) && SameMode(disk.head.value.mode, env.mode)
                 else env.mode.Full? && disk.raw != map[]
    ensures ResumeState(env, disk).Some? ==> ResumeState(env, disk) == Chain(env, Committed(disk))
  {
    if disk.head.Some? {
      HeadExactly(env, disk);
    } else {
      var n := |disk.raw|;
      RebuildFollowsChain(env, disk.raw, n);
      ChainConsistent(env, n);
      if Reconstructed(env, disk).Some? {
        ReconstructedIsGood(env, disk);
        HeadExactly(env, Reconstructed(env, disk).value);
      }
    }
  }
}
