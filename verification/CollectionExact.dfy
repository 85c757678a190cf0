/** The chain of pages and its rebuilding, each as one condition on the whole list of pages. */
module CollectionExact {
  import opened Bytes
  import opened Wrappers
  import opened Page
  import opened CanonicalFile
  import opened Collection

  /** The cursor a page was asked for with. */
  function Before(pages: seq<Page>, i: nat): Option<bytes>
    requires i <= |pages|
  {
    if i == 0 then None else pages[i - 1].next
  }

  function Records(pages: seq<Page>): seq<Stored> {
    if pages == [] then [] else Records(pages[..|pages| - 1]) + pages[|pages| - 1].records
  }

  function Cursors(pages: seq<Page>): set<bytes> { set i | 0 <= i < |pages| && pages[i].next.Some? :: pages[i].next.value }

  function StateOf(pages: seq<Page>): State { State(|pages|, Records(pages), Before(pages, |pages|), Cursors(pages)) }

  /** Every page but the last names the next one, no two of them with the same cursor, and the records stay within the limit. */
  ghost predicate Trail(pages: seq<Page>, maximumRecords: nat) {
    && (forall i | 0 < i < |pages| :: Before(pages, i).Some?)
    && (forall i, j | 0 <= i < j < |pages| && pages[i].next.Some? :: pages[i].next != pages[j].next)
    && |Records(pages)| <= maximumRecords
  }

  /** Page i is what the server sends for its cursor. */
  ghost predicate SentAt(env: Env, pages: seq<Page>, i: nat)
    requires i < |pages|
  {
    |env.server(Before(pages, i))| <= env.maximumPageBytes && env.parse(env.server(Before(pages, i)), false) == Some(pages[i])
  }

  ghost predicate Sent(env: Env, pages: seq<Page>) { forall i: nat | i < |pages| :: SentAt(env, pages, i) }

  /** Pages a run collects: sent in turn, within the limits, and without two lines for one identity. */
  ghost predicate Collected(env: Env, pages: seq<Page>) {
    && |pages| <= env.maximumPages && Trail(pages, env.maximumRecords) && Sent(env, pages) && Consistent(Records(pages))
  }

  /** Page i is in the raw directory, and declares, if anything, the cursor before it. */
  ghost predicate KeptAt(env: Env, raw: map<nat, bytes>, pages: seq<Page>, i: nat)
    requires i < |pages|
  {
    && i + 1 in raw && |raw[i + 1]| <= env.maximumPageBytes && env.parse(raw[i + 1], true) == Some(pages[i])
    && (pages[i].declared == None || pages[i].declared == Before(pages, i))
  }

  ghost predicate Kept(env: Env, raw: map<nat, bytes>, pages: seq<Page>) { forall i: nat | i < |pages| :: KeptAt(env, raw, pages, i) }

  ghost predicate Rebuilt(env: Env, raw: map<nat, bytes>, pages: seq<Page>) {
    Trail(pages, env.maximumRecords) && Kept(env, raw, pages)
  }

  // One page more.

  lemma CursorsGrow(pages: seq<Page>, page: Page)
    ensures Cursors(pages + [page]) == WithCursor(Cursors(pages), page.next)
  {
    var more := pages + [page];
    forall c | c in WithCursor(Cursors(pages), page.next) ensures c in Cursors(more) {
      if c in Cursors(pages) {
        var i :| 0 <= i < |pages| && pages[i].next == Some(c);
        assert more[i].next == Some(c);
      } else {
        assert more[|pages|].next == Some(c);
      }
    }
    forall c | c in Cursors(more) ensures c in WithCursor(Cursors(pages), page.next) {
      var i :| 0 <= i < |more| && more[i].next == Some(c);
      if i < |pages| { assert pages[i].next == Some(c); }
    }
  }

  lemma RecordsGrow(pages: seq<Page>, page: Page)
    ensures Records(pages + [page]) == Records(pages) + page.records
  {
    var more := pages + [page];
    assert more[..|pages|] == pages && more[|pages|] == page;
  }

  lemma StateGrows(pages: seq<Page>, page: Page)
    ensures StateOf(pages + [page]) ==
            State(|pages| + 1, Records(pages) + page.records, page.next, WithCursor(Cursors(pages), page.next))
  {
    CursorsGrow(pages, page);
    RecordsGrow(pages, page);
  }

  lemma NoPages()
    ensures StateOf([]) == START
  {
    assert Cursors([]) == {};
  }

  /** A trail goes on behind a page that names a cursor, with a page whose own cursor is new. */
  lemma TrailGrows(pages: seq<Page>, page: Page, maximumRecords: nat)
    ensures Trail(pages + [page], maximumRecords) <==>
            && Trail(pages, maximumRecords) && (pages == [] || Before(pages, |pages|).Some?)
            && (page.next.Some? ==> page.next.value !in Cursors(pages)) && |Records(pages) + page.records| <= maximumRecords
  {
    var more := pages + [page];
    StateGrows(pages, page);
    assert forall i | 0 <= i <= |pages| :: Before(more, i) == Before(pages, i);
    assert more[|pages|] == page && forall i | 0 <= i < |pages| :: more[i] == pages[i];
    if Trail(more, maximumRecords) {
      if pages != [] { assert Before(more, |pages|).Some?; }
      forall i, j | 0 <= i < j < |pages| && pages[i].next.Some? ensures pages[i].next != pages[j].next {
        assert more[i].next != more[j].next;
      }
      forall i | 0 <= i < |pages| && pages[i].next.Some? ensures pages[i].next != page.next {
        assert more[i].next != more[|pages|].next;
      }
    }
    if && Trail(pages, maximumRecords) && (page.next.Some? ==> page.next.value !in Cursors(pages)) {
      forall i, j | 0 <= i < j < |more| && more[i].next.Some? ensures more[i].next != more[j].next {
        if j == |pages| { assert more[i].next.value in Cursors(pages); }
      }
    }
  }

  lemma SentGrows(env: Env, pages: seq<Page>, page: Page)
    ensures Sent(env, pages + [page]) <==> Sent(env, pages) && SentAt(env, pages + [page], |pages|)
  {
    var more := pages + [page];
    forall i: nat | i < |pages| ensures SentAt(env, more, i) <==> SentAt(env, pages, i) {
      assert Before(more, i) == Before(pages, i) && more[i] == pages[i];
    }
  }

  lemma KeptGrows(env: Env, raw: map<nat, bytes>, pages: seq<Page>, page: Page)
    ensures Kept(env, raw, pages + [page]) <==> Kept(env, raw, pages) && KeptAt(env, raw, pages + [page], |pages|)
  {
    var more := pages + [page];
    forall i: nat | i < |pages| ensures KeptAt(env, raw, more, i) <==> KeptAt(env, raw, pages, i) {
      assert Before(more, i) == Before(pages, i) && more[i] == pages[i];
    }
  }

  lemma FewerConsistent(a: seq<Stored>, b: seq<Stored>)
    requires Consistent(a + b)
    ensures Consistent(a)
  {}

  // The chain.

  lemma NextExactly(env: Env, pages: seq<Page>, page: Page)
    requires Collected(env, pages) && (pages == [] || Before(pages, |pages|).Some?)
    ensures Collected(env, pages + [page]) ==> NextPage(env, StateOf(pages)) == Some(StateOf(pages + [page]))
    ensures NextPage(env, StateOf(pages)).Some? && env.parse(env.server(Before(pages, |pages|)), false) == Some(page) ==>
              Collected(env, pages + [page])
  {
    var more := pages + [page];
    StateGrows(pages, page);
    TrailGrows(pages, page, env.maximumRecords);
    SentGrows(env, pages, page);
    assert Before(more, |pages|) == Before(pages, |pages|) && more[|pages|] == page;
    assert SentAt(env, more, |pages|) <==>
      |env.server(Before(pages, |pages|))| <= env.maximumPageBytes && env.parse(env.server(Before(pages, |pages|)), false) == Some(page);
  }

  lemma {:induction false} ChainSound(env: Env, n: nat) returns (pages: seq<Page>)
    requires Chain(env, n).Some?
    ensures |pages| == n && Collected(env, pages) && Chain(env, n) == Some(StateOf(pages))
  {
    if n == 0 {
      pages := [];
      NoPages();
    } else {
      var before := ChainSound(env, n - 1);
      var page := env.parse(env.server(Before(before, n - 1)), false).value;
      NextExactly(env, before, page);
      pages := before + [page];
    }
  }

  lemma {:induction false} ChainComplete(env: Env, pages: seq<Page>)
    requires Collected(env, pages)
    ensures Chain(env, |pages|) == Some(StateOf(pages))
    decreases |pages|
  {
    if pages == [] {
      NoPages();
    } else {
      var n := |pages| - 1;
      var before, page := pages[..n], pages[n];
      assert pages == before + [page];
      StepOf(env, before, page);
      ChainComplete(env, before);
      ChainNext(env, |pages|, StateOf(before), StateOf(pages));
    }
  }

  lemma StepOf(env: Env, before: seq<Page>, page: Page)
    requires Collected(env, before + [page])
    ensures Collected(env, before) && !Ended(StateOf(before)) && NextPage(env, StateOf(before)) == Some(StateOf(before + [page]))
  {
    CollectedBefore(env, before, page);
    NextExactly(env, before, page);
  }

  lemma ChainNext(env: Env, n: nat, st: State, more: State)
    requires n > 0 && Chain(env, n - 1) == Some(st) && !Ended(st) && NextPage(env, st) == Some(more)
    ensures Chain(env, n) == Some(more)
  {}

  lemma CollectedBefore(env: Env, before: seq<Page>, page: Page)
    requires Collected(env, before + [page])
    ensures Collected(env, before) && (before == [] || Before(before, |before|).Some?)
  {
    RecordsGrow(before, page);
    TrailGrows(before, page, env.maximumRecords);
    SentGrows(env, before, page);
    FewerConsistent(Records(before), page.records);
  }

  /** The chain has n acceptable pages exactly when some n pages are collected as a whole, and it stands where they lead. */
  lemma ChainExactly(env: Env, n: nat)
    ensures Chain(env, n).Some? <==> exists pages :: |pages| == n && Collected(env, pages)
    ensures forall pages | |pages| == n && Collected(env, pages) :: Chain(env, n) == Some(StateOf(pages))
  {
    if Chain(env, n).Some? { var pages := ChainSound(env, n); }
    forall pages | |pages| == n && Collected(env, pages) ensures Chain(env, n) == Some(StateOf(pages)) { ChainComplete(env, pages); }
  }

  // Rebuilding.

  lemma RebuildNext(env: Env, raw: map<nat, bytes>, pages: seq<Page>, page: Page)
    requires Rebuilt(env, raw, pages)
    ensures Rebuilt(env, raw, pages + [page]) ==> RebuildPage(env, raw, StateOf(pages)) == Some(StateOf(pages + [page]))
    ensures RebuildPage(env, raw, StateOf(pages)).Some? && env.parse(raw[|pages| + 1], true) == Some(page) ==>
              Rebuilt(env, raw, pages + [page])
  {
    var more := pages + [page];
    StateGrows(pages, page);
    TrailGrows(pages, page, env.maximumRecords);
    KeptGrows(env, raw, pages, page);
    assert Before(more, |pages|) == Before(pages, |pages|) && more[|pages|] == page;
  }

  lemma {:induction false} RebuildSound(env: Env, raw: map<nat, bytes>, n: nat) returns (pages: seq<Page>)
    requires Rebuild(env, raw, n).Some?
    ensures |pages| == n && Rebuilt(env, raw, pages) && Rebuild(env, raw, n) == Some(StateOf(pages))
  {
    if n == 0 {
      pages := [];
      NoPages();
    } else {
      var before := RebuildSound(env, raw, n - 1);
      var page := env.parse(raw[n], true).value;
      RebuildNext(env, raw, before, page);
      pages := before + [page];
    }
  }

  lemma {:induction false} RebuildComplete(env: Env, raw: map<nat, bytes>, pages: seq<Page>)
    requires Rebuilt(env, raw, pages)
    ensures Rebuild(env, raw, |pages|) == Some(StateOf(pages))
    decreases |pages|
  {
    if pages == [] {
      NoPages();
    } else {
      var n := |pages| - 1;
      var before, page := pages[..n], pages[n];
      assert pages == before + [page];
      TrailGrows(before, page, env.maximumRecords);
      KeptGrows(env, raw, before, page);
      RebuildComplete(env, raw, before);
      RebuildNext(env, raw, before, page);
    }
  }

  /** Whatever the raw directory holds, n pages of it are rebuilt exactly when they form a trail with fitting declared cursors. */
  lemma RebuildExactly(env: Env, raw: map<nat, bytes>, n: nat)
    ensures Rebuild(env, raw, n).Some? <==> exists pages :: |pages| == n && Rebuilt(env, raw, pages)
    ensures forall pages | |pages| == n && Rebuilt(env, raw, pages) :: Rebuild(env, raw, n) == Some(StateOf(pages))
  {
    if Rebuild(env, raw, n).Some? { var pages := RebuildSound(env, raw, n); }
    forall pages | |pages| == n && Rebuilt(env, raw, pages) ensures Rebuild(env, raw, n) == Some(StateOf(pages)) {
      RebuildComplete(env, raw, pages);
    }
  }

  // Resuming from a checkpoint.

  /** A checkpoint that describes these raw pages, and page lines that agree with it. */
  ghost predicate Describing(env: Env, disk: Disk, pages: seq<Page>) {
    && disk.head.Some? && disk.lines.Some?
    && var h, lines := disk.head.value, disk.lines.value;
    && h.completed == |pages| == |lines| == h.linesSize && h.linesDigest == env.linesDigest(lines)
    && h.records == |Records(pages)| && h.next == Before(pages, |pages|) && SameMode(h.mode, env.mode)
    && (if pages == [] then h.last == None else |pages| in disk.raw && h.last == Some((env.sha(disk.raw[|pages|]), |disk.raw[|pages|]|)))
    && (forall i | 0 <= i < |lines| :: lines[i].number == i + 1)
    && (lines != [] ==> lines[|lines| - 1].output == Before(pages, |pages|))
  }

  /** What a resume may start from: rebuilt pages within the limit that the checkpoint describes, without conflicting lines. */
  ghost predicate Resumable(env: Env, disk: Disk, pages: seq<Page>) {
    |pages| <= env.maximumPages && Rebuilt(env, disk.raw, pages) && Consistent(Records(pages)) && Describing(env, disk, pages)
  }

  lemma MatchesExactly(env: Env, disk: Disk, pages: seq<Page>)
    requires disk.head.Some? && disk.head.value.completed == |pages|
    ensures HeadMatches(env, disk, StateOf(pages)) <==> Describing(env, disk, pages)
  {}

  /** Whatever is on disk, a bundle with a checkpoint is resumed from a state exactly when some resumable pages lead to it. */
  lemma ResumedExactly(env: Env, disk: Disk, st: State)
    requires disk.head.Some?
    ensures HeadState(env, disk) == Some(st) <==> exists pages :: Resumable(env, disk, pages) && st == StateOf(pages)
  {
    var n := disk.head.value.completed;
    if HeadState(env, disk) == Some(st) {
      var pages := RebuildSound(env, disk.raw, n);
      MatchesExactly(env, disk, pages);
      assert Resumable(env, disk, pages);
    }
    if pages :| Resumable(env, disk, pages) && st == StateOf(pages) {
      RebuildComplete(env, disk.raw, pages);
      MatchesExactly(env, disk, pages);
    }
  }
}
