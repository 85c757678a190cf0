/** collect_registry as it runs: the durable writes, the page loop, and resume, with a crash possible at every write. */
module CollectRun {
  import opened Bytes
  import opened Wrappers
  import opened Record
  import opened Page
  import opened CanonicalFile
  import opened Collection
  import opened ValidBundle

  /** What happens to the k-th durable write or request: it succeeds, fails before or after taking effect, or the process dies. */
  datatype Fate = Done | Failed | DoneButReported | Crashed

  datatype Write = Written | Refused | Dead

  /** The temporary bundle directory of one process, until it is moved to the output path. */
  class PartialBundle {
    var raw: map<nat, bytes>
    var lines: Option<seq<PageLine>>
    var head: Option<Head>
    var canonical: Option<bytes>
    var errors: Option<bytes>
    var manifest: Option<Manifest>
    var marker: bool
    var promoted: bool
    var events: nat
    /** How many of them were not simply done. */
    ghost var troubles: nat
    const plan: nat -> Fate

    constructor (plan: nat -> Fate)
      ensures this.plan == plan && Files() == Bundle(Disk(map[], None, None), None, None, None, false) && !promoted && events == 0 && troubles == 0
    {
      this.plan := plan;
      raw, lines, head, events, troubles := map[], None, None, 0, 0;
      canonical, errors, manifest, marker, promoted := None, None, None, false, false;
    }

    function OnDisk(): Disk
      reads this`raw, this`lines, this`head
    {
      Disk(raw, lines, head)
    }

    function Files(): Bundle
      reads this
    {
      Bundle(OnDisk(), canonical, errors, manifest, marker)
    }

    method Next() returns (fate: Fate)
      modifies this`events, this`troubles
      ensures fate == plan(old(events)) && events == old(events) + 1
      ensures troubles == old(troubles) + if fate.Done? then 0 else 1
    {
      fate := plan(events);
      events := events + 1;
      if !fate.Done? { troubles := troubles + 1; }
    }

    /** Troubles are counted up, and there are none where nothing goes wrong. */
    twostate predicate Counted()
      reads this`troubles
    {
      old(troubles) <= troubles && (Smooth(plan) ==> troubles == old(troubles))
    }

    /** Since then, nothing has gone wrong. */
    twostate predicate Untroubled()
      reads this`troubles
    {
      troubles == old(troubles)
    }

    /** atomic_replace_file without replacement, for a raw page. */
    method PutRaw(n: nat, body: bytes) returns (w: Write)
      modifies this`events, this`troubles, this`raw
      ensures events == old(events) + 1
      ensures w.Dead? <==> plan(old(events)).Crashed?
      ensures Counted() && (Untroubled() <==> plan(old(events)).Done?) && (w.Written? <==> plan(old(events)).Done? && n !in old(raw))
      ensures w.Written? ==> n !in old(raw) && raw == old(raw)[n := body]
      ensures !w.Written? ==> raw == old(raw) || (n !in old(raw) && raw == old(raw)[n := body])
    {
      var fate := Next();
      if fate.Crashed? { return Dead; }
      if fate.Failed? || n in raw { return Refused; }
      raw := raw[n := body];
      return if fate.Done? then Written else Refused;
    }

    method PutLines(more: seq<PageLine>) returns (w: Write)
      modifies this`events, this`troubles, this`lines
      ensures events == old(events) + 1
      ensures Counted() && (w.Written? <==> plan(old(events)).Done?) && (w.Written? <==> Untroubled())
      ensures w.Written? ==> lines == Some(more)
      ensures !w.Written? ==> lines == old(lines) || lines == Some(more)
    {
      var fate := Next();
      if fate.Crashed? { return Dead; }
      if fate.Failed? { return Refused; }
      lines := Some(more);
      return if fate.Done? then Written else Refused;
    }

    method PutHead(h: Head) returns (w: Write)
      modifies this`events, this`troubles, this`head
      ensures events == old(events) + 1
      ensures Counted() && (w.Written? <==> plan(old(events)).Done?) && (w.Written? <==> Untroubled())
      ensures w.Written? ==> head == Some(h)
      ensures !w.Written? ==> head == old(head) || head == Some(h)
      ensures w.Dead? <==> plan(old(events)).Crashed?
      ensures w.Dead? ==> head == old(head)
    {
      var fate := Next();
      if fate.Crashed? { return Dead; }
      if fate.Failed? { return Refused; }
      head := Some(h);
      return if fate.Done? then Written else Refused;
    }

    // Files written once, not by replacing: unless the write succeeds, any content may be left.

    method PutCanonical(text: bytes) returns (w: Write)
      modifies this`events, this`troubles, this`canonical
      ensures Counted() && (w.Written? <==> plan(old(events)).Done?) && (w.Written? <==> Untroubled())
      ensures w.Written? ==> canonical == Some(text)
    {
      var fate := Next();
      if !fate.Done? {
        canonical := *;
        return if fate.Crashed? then Dead else Refused;
      }
      canonical := Some(text);
      return Written;
    }

    method PutErrors(text: bytes) returns (w: Write)
      modifies this`events, this`troubles, this`errors
      ensures Counted() && (w.Written? <==> plan(old(events)).Done?) && (w.Written? <==> Untroubled())
      ensures w.Written? ==> errors == Some(text)
    {
      var fate := Next();
      if !fate.Done? {
        errors := *;
        return if fate.Crashed? then Dead else Refused;
      }
      errors := Some(text);
      return Written;
    }

    method PutManifest(m: Manifest) returns (w: Write)
      modifies this`events, this`troubles, this`manifest
      ensures Counted() && (w.Written? <==> plan(old(events)).Done?) && (w.Written? <==> Untroubled())
      ensures w.Written? ==> manifest == Some(m)
    {
      var fate := Next();
      if !fate.Done? {
        manifest := *;
        return if fate.Crashed? then Dead else Refused;
      }
      manifest := Some(m);
      return Written;
    }

    /** The success marker is an empty file. */
    method PutMarker() returns (w: Write)
      modifies this`events, this`troubles, this`marker
      ensures Counted() && (w.Written? <==> plan(old(events)).Done?) && (w.Written? <==> Untroubled())
      ensures w.Written? ==> marker
    {
      var fate := Next();
      if fate.Crashed? { return Dead; }
      if fate.Failed? { return Refused; }
      marker := true;
      return if fate.Done? then Written else Refused;
    }

    /** promote_without_replace: one rename, which either happens or not. */
    method Promote() returns (w: Write)
      modifies this`events, this`troubles, this`promoted
      ensures Counted() && (w.Written? <==> plan(old(events)).Done?) && (w.Written? <==> Untroubled())
      ensures w.Written? ==> promoted
      ensures !w.Written? ==> promoted == old(promoted)
    {
      var fate := Next();
      if fate.Crashed? { return Dead; }
      if !fate.Done? { return Refused; }
      promoted := true;
      return Written;
    }

    /** What fail() leaves in the diagnostics file, if it gets to write it. */
    method Fail()
      modifies this`errors
    {
      errors := *;
    }
  }

  /** Nothing goes wrong. */
  ghost predicate Smooth(plan: nat -> Fate) { forall k :: plan(k).Done? }

  /** The chain has an end within the limits. */
  ghost predicate ChainEnds(env: Env) {
    exists n :: EndsAt(env, n)
  }

  /** Before its end, an ending chain has a next page. */
  lemma MustContinue(env: Env, st: State)
    requires ChainEnds(env) && Chain(env, st.pages) == Some(st) && !Ended(st)
    ensures NextPage(env, st).Some?
  {
    var n: nat :| EndsAt(env, n);
    if n < st.pages {
      ChainPrefix(env, n, st.pages);
    } else {
      ChainPrefix(env, st.pages + 1, n);
    }
  }

  datatype RunResult = Stopped | Completed(canonical: bytes, unique: nat)

  /** The canonical file of the whole chain, as an uninterrupted run writes it. */
  ghost predicate IsFinal(env: Env, n: nat, r: RunResult) {
    EndsAt(env, n) && r == Completed(FinalText(env, n), FinalCount(env, n))
  }

  ghost predicate Correct(env: Env, r: RunResult) {
    r.Stopped? || exists n :: IsFinal(env, n, r)
  }

  /** Every identity of the records with its line, and nothing else. */
  ghost predicate IsIndex(index: map<bytes, bytes>, records: seq<Stored>) {
    && (forall r | r in records :: r.identity in index && index[r.identity] == r.line)
    && (forall id | id in index :: Stored(id, index[id]) in records)
  }

  lemma IndexConsistent(index: map<bytes, bytes>, records: seq<Stored>)
    requires IsIndex(index, records)
    ensures Consistent(records)
  {}

  /** The duplicate checks on a page's records against those committed and among themselves. */
  method AddToIndex(committed: map<bytes, bytes>, records: seq<Stored>, page: seq<Stored>)
    returns (index: map<bytes, bytes>, ok: bool)
    requires IsIndex(committed, records)
    ensures ok <==> Consistent(records + page)
    ensures ok ==> IsIndex(index, records + page)
  {
    index := committed;
    var i := 0;
    assert records + page[..0] == records;
    while i < |page|
      invariant 0 <= i <= |page|
      invariant IsIndex(index, records + page[..i])
    {
      var r := page[i];
      assert page[..i + 1] == page[..i] + [r];
      assert records + page[..i + 1] == records + page[..i] + [r];
      if r.identity in index && index[r.identity] != r.line {
        var other := Stored(r.identity, index[r.identity]);
        assert other in records + page[..i];
        assert other in records + page && r in records + page;
        return index, false;
      }
      index := index[r.identity := r.line];
      i := i + 1;
    }
    assert page[..i] == page;
    IndexConsistent(index, records + page);
    return index, true;
  }

  /** reconstruct_state: the state after the first pages of a raw directory, and the lines that describe them. */
  method Reconstruct(env: Env, raw: map<nat, bytes>, limit: nat) returns (r: Option<State>, lines: seq<PageLine>)
    requires limit <= env.maximumPages
    ensures r == Rebuild(env, raw, limit)
    ensures r.Some? ==> lines == RebuiltLines(env, raw, limit)
  {
    var st := START;
    lines := [];
    var n := 0;
    while n < limit
      invariant 0 <= n <= limit
      invariant Rebuild(env, raw, n) == Some(st) && lines == RebuiltLines(env, raw, n)
    {
      n := n + 1;
      if n !in raw || |raw[n]| > env.maximumPageBytes {
        RebuildStops(env, raw, n, limit);
        return None, [];
      }
      var page := env.parse(raw[n], true);
      if page.None? || |st.records + page.value.records| > env.maximumRecords
         || (n > 1 && st.next.None?) || (page.value.declared.Some? && page.value.declared != st.next)
         || (page.value.next.Some? && page.value.next.value in st.cursors) {
        RebuildStops(env, raw, n, limit);
        return None, [];
      }
      lines := lines + [RebuiltLine(env, raw[n], n, st.next, page.value.next)];
      st := State(n, st.records + page.value.records, page.value.next, WithCursor(st.cursors, page.value.next));
    }
    return Some(st), lines;
  }

  lemma {:induction false} RebuildStops(env: Env, raw: map<nat, bytes>, n: nat, limit: nat)
    requires n <= limit && Rebuild(env, raw, n).None?
    ensures Rebuild(env, raw, limit).None?
    decreases limit
  {
    if n < limit { RebuildStops(env, raw, n, limit - 1); }
  }

  /** Everything resume checks about a partial bundle with a checkpoint. */
  method CheckResume(env: Env, disk: Disk) returns (r: Option<State>, index: map<bytes, bytes>)
    requires disk.head.Some?
    ensures r == HeadState(env, disk)
    ensures r.Some? ==> IsIndex(index, r.value.records)
  {
    index := map[];
    var h := disk.head.value;
    if h.completed > env.maximumPages { return None, index; }
    var st, _ := Reconstruct(env, disk.raw, h.completed);
    if st.None? { return None, index; }
    if h.completed != st.value.pages || h.records != |st.value.records| || h.next != st.value.next { return None, index; }
    if h.completed == 0 {
      if h.last != None { return None, index; }
    } else {
      if h.completed !in disk.raw { return None, index; }
      var body := disk.raw[h.completed];
      if h.last != Some(Artifact(env, body)) { return None, index; }
    }
    if disk.lines.None? { return None, index; }
    var lines := disk.lines.value;
    if env.linesDigest(lines) != h.linesDigest || |lines| != h.linesSize { return None, index; }
    var i := 0;
    var final: Option<bytes> := None;
    while i < |lines|
      invariant 0 <= i <= |lines|
      invariant LinesOk(lines[..i], final)
    {
      if lines[i].number != i + 1 { return None, index; }
      final := lines[i].output;
      i := i + 1;
    }
    assert lines[..i] == lines;
    if |lines| != h.completed || final != st.value.next || !ModeAccepted(env, h) { return None, index; }
    var ok;
    index, ok := AddToIndex(map[], [], st.value.records);
    assert [] + st.value.records == st.value.records;
    if !ok { return None, index; }
    return st, index;
  }

  /** The memory of a running collector against its directory and the chain. */
  ghost predicate Running(env: Env, st: State, index: map<bytes, bytes>, lines: seq<PageLine>, disk: Disk) {
    && Chain(env, st.pages) == Some(st) && st.pages <= env.maximumPages
    && IsIndex(index, st.records) && |st.records| <= env.maximumRecords
    && Describes(env, lines) && |lines| == st.pages
    && disk.lines == Some(lines)
    && disk.head == Some(HeadFor(env, st, LastFor(env, st.pages), lines))
    && RawHolds(env, disk.raw, st.pages) && (forall i | i in disk.raw :: 1 <= i <= st.pages)
  }

  lemma RunningIsGood(env: Env, st: State, index: map<bytes, bytes>, lines: seq<PageLine>, disk: Disk)
    requires Running(env, st, index, lines, disk)
    ensures Good(env, disk)
  {}

  /** The checkpoint written with page n. */
  ghost function HeadOf(env: Env, more: State, body: bytes, lines: seq<PageLine>): Head {
    HeadFor(env, more, Some(Artifact(env, body)), lines)
  }

  /** The page being committed is the next one of the chain. */
  ghost predicate Follows(env: Env, st: State, more: State, body: bytes) {
    && Chain(env, st.pages) == Some(st) && more.pages == st.pages + 1 <= env.maximumPages
    && Chain(env, more.pages) == Some(more) && Body(env, more.pages) == body
  }

  lemma NextFollows(env: Env, st: State, more: State)
    requires Chain(env, st.pages) == Some(st) && !Ended(st) && NextPage(env, st) == Some(more)
    ensures Follows(env, st, more, env.server(st.next)) && |more.records| <= env.maximumRecords
  {}

  lemma RawStep(env: Env, st: State, more: State, body: bytes, raw: map<nat, bytes>)
    requires Follows(env, st, more, body) && RawHolds(env, raw, st.pages)
    ensures RawHolds(env, raw[more.pages := body], st.pages) && RawHolds(env, raw[more.pages := body], more.pages)
  {
    var later := raw[more.pages := body];
    forall i | 1 <= i <= st.pages ensures RawPage(env, later, i) { assert RawPage(env, raw, i); }
  }

  /** Any mixture of old and new files that the order of the writes can leave is good. */
  lemma MixedIsGood(env: Env, st: State, more: State, index: map<bytes, bytes>, lines: seq<PageLine>, newLines: seq<PageLine>,
                    body: bytes, before: Disk, after: Disk)
    requires Running(env, st, index, lines, before) && Follows(env, st, more, body)
    requires |newLines| == |lines| + 1 && Describes(env, newLines)
    requires after.raw == before.raw || after.raw == before.raw[more.pages := body]
    requires after.lines == Some(lines) || after.lines == Some(newLines)
    requires || after.head == before.head
             || (after.head == Some(HeadOf(env, more, body, newLines)) && after.raw == before.raw[more.pages := body])
    ensures Good(env, after)
  {
    RawStep(env, st, more, body, before.raw);
    if after.head == before.head {
      assert RawHolds(env, after.raw, st.pages);
    } else {
      assert LastFor(env, more.pages) == after.head.value.last;
    }
  }

  lemma CommittedIsRunning(env: Env, st: State, more: State, index: map<bytes, bytes>, lines: seq<PageLine>, newLines: seq<PageLine>,
                           body: bytes, before: Disk, newIndex: map<bytes, bytes>)
    requires Running(env, st, index, lines, before) && Follows(env, st, more, body)
    requires |newLines| == |lines| + 1 && Describes(env, newLines)
    requires IsIndex(newIndex, more.records) && |more.records| <= env.maximumRecords
    ensures Running(env, more, newIndex, newLines,
                    Disk(before.raw[more.pages := body], Some(newLines), Some(HeadOf(env, more, body, newLines))))
  {
    RawStep(env, st, more, body, before.raw);
    assert LastFor(env, more.pages) == Some(Artifact(env, body));
  }

  /** The process dies when pages.jsonl is replaced and the checkpoint is not. */
  ghost predicate CrashesBetween(plan: nat -> Fate, event: nat) {
    plan(event).Done? && plan(event + 1).Done? && plan(event + 2).Crashed?
  }

  /** What such a crash leaves is good, and no process resumes it. */
  lemma BetweenIsRefused(env: Env, st: State, more: State, index: map<bytes, bytes>, lines: seq<PageLine>, newLines: seq<PageLine>,
                         body: bytes, before: Disk)
    requires ParserOk(env.parse) && Running(env, st, index, lines, before) && Follows(env, st, more, body)
    requires |newLines| == |lines| + 1 && Describes(env, newLines)
    ensures Good(env, Disk(before.raw[more.pages := body], Some(newLines), before.head))
    ensures ResumeState(env, Disk(before.raw[more.pages := body], Some(newLines), before.head)).None?
  {
    var left := Disk(before.raw[more.pages := body], Some(newLines), before.head);
    MixedIsGood(env, st, more, index, lines, newLines, body, before, left);
    ResumeExactly(env, left);
  }

  /** The page's commit: raw page, then pages.jsonl, then the checkpoint; pages.jsonl is rolled back when the checkpoint fails. */
  method CommitPage(b: PartialBundle, env: Env, st: State, more: State, ghost index: map<bytes, bytes>, lines: seq<PageLine>,
                    ghost newIndex: map<bytes, bytes>, body: bytes, stamp: nat) returns (ok: bool, newLines: seq<PageLine>)
    requires Running(env, st, index, lines, b.OnDisk()) && IsIndex(newIndex, more.records)
    requires Follows(env, st, more, body) && |more.records| <= env.maximumRecords
    modifies b`raw, b`lines, b`head, b`events, b`troubles
    ensures Good(env, b.OnDisk())
    ensures ok ==> Running(env, more, newIndex, newLines, b.OnDisk())
    ensures b.Counted() && (ok <==> b.Untroubled())
    ensures ParserOk(env.parse) && CrashesBetween(b.plan, old(b.events)) ==>
              !ok && b.head == old(b.head) && ResumeState(env, b.OnDisk()).None?
  {
    var n := st.pages + 1;
    ghost var before := b.OnDisk();
    newLines := lines + [PageLine(n, st.next, more.next, env.sha(body), |body|, stamp)];
    CommittedIsRunning(env, st, more, index, lines, newLines, body, before, newIndex);
    if ParserOk(env.parse) { BetweenIsRefused(env, st, more, index, lines, newLines, body, before); }
    var w := b.PutRaw(n, body);
    if w.Written? {
      w := b.PutLines(newLines);
      if w.Written? {
        ok := CommitHead(b, env, more, body, lines, newLines);
      } else {
        ok := false;
      }
    } else {
      ok := false;
    }
    MixedIsGood(env, st, more, index, lines, newLines, body, before, b.OnDisk());
  }

  /** The checkpoint, and the old pages.jsonl again if writing it is reported to have failed. */
  method CommitHead(b: PartialBundle, env: Env, more: State, body: bytes, lines: seq<PageLine>, newLines: seq<PageLine>) returns (ok: bool)
    requires b.lines == Some(newLines)
    modifies b`lines, b`head, b`events, b`troubles
    ensures b.head == old(b.head) || b.head == Some(HeadOf(env, more, body, newLines))
    ensures b.lines == Some(lines) || b.lines == Some(newLines)
    ensures ok ==> b.head == Some(HeadOf(env, more, body, newLines)) && b.lines == Some(newLines)
    ensures b.Counted() && (ok <==> b.Untroubled())
    ensures b.plan(old(b.events)).Crashed? ==> !ok && b.head == old(b.head) && b.lines == Some(newLines)
  {
    var w := b.PutHead(Head(more.pages, |more.records|, more.next, Some(Artifact(env, body)), env.linesDigest(newLines), |newLines|,
                   Some(env.mode)));
    if w.Refused? {
      var _ := b.PutLines(lines);
    }
    ok := w.Written?;
  }

  /** Nothing is committed yet: whatever raw pages are there do not matter. */
  lemma EmptyIsGood(env: Env, disk: Disk)
    requires disk.head == Some(HeadFor(env, START, None, [])) && disk.lines.Some?
    ensures Good(env, disk)
  {}

  /** Copies the committed pages of a resumed bundle into the new directory. */
  method CopyPages(b: PartialBundle, raw: map<nat, bytes>, n: nat) returns (ok: bool)
    requires b.raw == map[] && forall k | 1 <= k <= n :: k in raw
    modifies b`events, b`troubles, b`raw
    ensures ok ==> b.raw == map k | 1 <= k <= n :: raw[k]
    ensures b.Counted() && (ok <==> b.Untroubled())
  {
    var i := 0;
    while i < n
      invariant 0 <= i <= n
      invariant b.raw == map k | 1 <= k <= i :: raw[k]
      invariant b.Untroubled()
    {
      i := i + 1;
      var w := b.PutRaw(i, raw[i]);
      if !w.Written? { return false; }
    }
    return true;
  }

  lemma CopiedHolds(env: Env, raw: map<nat, bytes>, n: nat)
    requires Chain(env, n).Some? && RawHolds(env, raw, n)
    ensures forall k | 1 <= k <= n :: k in raw
    ensures RawHolds(env, map k | 1 <= k <= n :: raw[k], n)
  {
    forall k | 1 <= k <= n ensures k in raw { assert RawPage(env, raw, k); }
    var copy := map k | 1 <= k <= n :: raw[k];
    forall k | 1 <= k <= n ensures RawPage(env, copy, k) { assert RawPage(env, raw, k); }
  }

  /** The start of every process: an empty pages.jsonl and a checkpoint with no pages. */
  method Initialize(b: PartialBundle, env: Env) returns (ok: bool)
    requires b.OnDisk() == Disk(map[], None, None)
    modifies b`lines, b`head, b`events, b`troubles
    ensures Good(env, b.OnDisk()) && b.raw == map[]
    ensures ok ==> b.lines == Some([]) && b.head == Some(HeadFor(env, START, None, [])) && b.events == old(b.events) + 2
    ensures b.Counted() && (ok <==> b.Untroubled())
    ensures b.plan(old(b.events)).Done? && b.plan(old(b.events) + 1).Done? ==> ok
  {
    var w := b.PutLines([]);
    if !w.Written? { return false; }
    w := b.PutHead(Head(0, 0, None, None, env.linesDigest([]), 0, Some(env.mode)));
    return w.Written?;
  }

  /** Takes over the committed pages of another partial bundle. */
  method Adopt(b: PartialBundle, env: Env, source: Disk, st: State, ghost index: map<bytes, bytes>) returns (ok: bool, lines: seq<PageLine>)
    requires ParserOk(env.parse) && Good(env, source) && source.head.Some?
    requires HeadState(env, source) == Some(st) && IsIndex(index, st.records)
    requires b.head == Some(HeadFor(env, START, None, [])) && b.lines == Some([]) && b.raw == map[]
    modifies b`raw, b`lines, b`head, b`events, b`troubles
    ensures Good(env, b.OnDisk())
    ensures ok ==> Running(env, st, index, lines, b.OnDisk())
    ensures b.Counted() && (ok <==> b.Untroubled())
  {
    HeadExactly(env, source);
    ChainConsistent(env, st.pages);
    lines := source.lines.value;
    CopiedHolds(env, source.raw, st.pages);
    ok := CopyPages(b, source.raw, st.pages);
    EmptyIsGood(env, b.OnDisk());
    if !ok { return; }
    var w := b.PutLines(lines);
    EmptyIsGood(env, b.OnDisk());
    if !w.Written? { return false, lines; }
    var last := if st.pages == 0 then None else Some(Artifact(env, source.raw[st.pages]));
    assert last == LastFor(env, st.pages);
    w := b.PutHead(Head(st.pages, |st.records|, st.next, last, env.linesDigest(lines), |lines|, Some(env.mode)));
    ok := w.Written?;
  }

  /** The checks on one response before it is committed. */
  method AcceptPage(env: Env, st: State, index: map<bytes, bytes>) returns (more: Option<State>, newIndex: map<bytes, bytes>)
    requires IsIndex(index, st.records) && |st.records| <= env.maximumRecords
    ensures more == NextPage(env, st)
    ensures more.Some? ==> IsIndex(newIndex, more.value.records)
  {
    newIndex := index;
    var body := env.server(st.next);
    if st.pages >= env.maximumPages || |body| > env.maximumPageBytes { return None, index; }
    var page := env.parse(body, false);
    if page.None? { return None, index; }
    if |page.value.records| > env.maximumRecords - |st.records| { return None, index; }
    if page.value.next.Some? && page.value.next.value in st.cursors { return None, index; }
    var ok;
    newIndex, ok := AddToIndex(index, st.records, page.value.records);
    if !ok { return None, index; }
    more := Some(State(st.pages + 1, st.records + page.value.records, page.value.next, WithCursor(st.cursors, page.value.next)));
  }

  // The end of a run: canonical file, manifest, self-validation, success marker, promotion.

  /** Start and end of a run, and when each page came. */
  datatype Times = Times(started: nat, retrieved: nat -> nat, completed: nat)

  /** What a bundle directory holds at any time: a success marker stands only in the finished bundle of the whole chain. */
  ghost predicate GoodBundle(env: Env, b: Bundle) {
    Good(env, b.disk) && (b.marker ==> exists n :: Finished(env, n, b) && Validates(env, b.(errors := Some([]))))
  }

  method RawArtifacts(b: PartialBundle, env: Env, n: nat) returns (artifacts: seq<(bytes, nat)>)
    requires forall i | 1 <= i <= n :: i in b.raw
    ensures |artifacts| == n && forall i | 0 <= i < n :: HasArtifact(env, b.raw, i + 1, artifacts[i])
  {
    artifacts := [];
    for i := 0 to n
      invariant |artifacts| == i && forall k | 0 <= k < i :: HasArtifact(env, b.raw, k + 1, artifacts[k])
    {
      artifacts := artifacts + [Artifact(env, b.raw[i + 1])];
    }
  }

  /** The files of the end, up to the manifest. */
  method WriteFiles(b: PartialBundle, env: Env, st: State, lines: seq<PageLine>, times: Times, othersOk: bool)
    returns (ok: bool, unique: nat)
    requires Chain(env, st.pages) == Some(st) && Ended(st) && Consistent(st.records)
    requires Describes(env, lines) && |lines| == st.pages && b.lines == Some(lines) && RawHolds(env, b.raw, st.pages)
    modifies b`events, b`troubles, b`canonical, b`errors, b`manifest
    ensures ok ==> Finished(env, st.pages, b.Files()) && b.errors == Some([]) && unique == FinalCount(env, st.pages)
    ensures ok ==> b.manifest.value.started == times.started && b.manifest.value.completed == times.completed
    ensures ok ==> b.manifest.value.othersOk == othersOk
    ensures b.Counted() && (ok <==> b.Untroubled())
  {
    var canonical := Canonicalize(st.records);
    var text := canonical.value.0;
    unique := canonical.value.1;
    var fate := b.Next();
    if !fate.Done? { return false, unique; }
    var w := b.PutCanonical(text);
    if !w.Written? { return false, unique; }
    w := b.PutErrors([]);
    if !w.Written? { return false, unique; }
    forall i | 1 <= i <= st.pages ensures i in b.raw { assert RawPage(env, b.raw, i); }
    var artifacts := RawArtifacts(b, env, st.pages);
    w := b.PutManifest(Manifest(
      artifacts, (env.linesDigest(lines), |lines|), Artifact(env, text), Artifact(env, []),
      st.pages, |st.records|, unique, env.sha(text), times.started, times.completed, othersOk));
    ok := w.Written?;
  }

  /**
   * From the last page to the output path. The marker is written only behind a passed self-validation and the move is
   * made only behind the marker; between the two nothing changes but, after a failure, the diagnostics file.
   */
  method Finish(b: PartialBundle, env: Env, st: State, lines: seq<PageLine>, times: Times, othersOk: bool) returns (r: RunResult)
    requires Chain(env, st.pages) == Some(st) && Ended(st) && Consistent(st.records)
    requires Describes(env, lines) && |lines| == st.pages && b.lines == Some(lines) && RawHolds(env, b.raw, st.pages)
    requires !b.marker && !b.promoted
    modifies b`events, b`troubles, b`canonical, b`errors, b`manifest, b`marker, b`promoted
    ensures b.marker ==> Finished(env, st.pages, b.Files()) && Validates(env, b.Files().(errors := Some([])))
    ensures b.promoted ==> b.marker && Validates(env, b.Files())
    ensures r.Completed? ==> b.promoted && r == Completed(FinalText(env, st.pages), FinalCount(env, st.pages))
    ensures b.Counted()
    ensures r.Completed? <==> b.Untroubled() && Acceptable(env, st.pages, times.started, times.completed, othersOk)
  {
    r := Stopped;
    var fate := b.Next();
    if !fate.Done? { b.Fail(); return; }
    var ok, unique := WriteFiles(b, env, st, lines, times, othersOk);
    if !ok { b.Fail(); return; }
    fate := b.Next();
    if !fate.Done? { b.Fail(); return; }
    FinishedValidates(env, st.pages, b.Files());
    ok := ValidateBundle(env, b.Files(), false);
    if !ok { b.Fail(); return; }
    assert b.Files().(errors := Some([])) == b.Files();
    r := MarkAndPromote(b, env, st.pages, unique);
  }

  /** The marker and the move. */
  method MarkAndPromote(b: PartialBundle, env: Env, n: nat, unique: nat) returns (r: RunResult)
    requires Finished(env, n, b.Files()) && Validates(env, b.Files()) && unique == FinalCount(env, n)
    requires !b.marker && !b.promoted
    modifies b`events, b`troubles, b`errors, b`marker, b`promoted
    ensures Finished(env, n, b.Files()) && Validates(env, b.Files().(errors := Some([])))
    ensures b.promoted ==> b.marker && Validates(env, b.Files())
    ensures r.Completed? ==> b.promoted && r == Completed(FinalText(env, n), FinalCount(env, n))
    ensures b.Counted() && (r.Completed? <==> b.Untroubled())
  {
    ghost var files := b.Files();
    r := Stopped;
    FinishedValidates(env, n, files);
    MarkerAside(env, n, files);
    var ok := Mark(b);
    if ok {
      var w := b.Promote();
      ok := w.Written?;
    }
    if !ok { b.Fail(); return; }
    assert b.Files() == files.(marker := true);
    var fate := b.Next();
    if fate.Done? { r := Completed(b.canonical.value, unique); }
  }

  /** The check of the deadline, the marker, and the flushes of the directories. */
  method Mark(b: PartialBundle) returns (ok: bool)
    modifies b`events, b`troubles, b`marker
    ensures ok ==> b.marker
    ensures b.Counted() && (ok <==> b.Untroubled())
  {
    var fate := b.Next();
    if !fate.Done? { return false; }
    var w := b.PutMarker();
    if !w.Written? { return false; }
    fate := b.Next();
    ok := fate.Done?;
  }

  /** Neither marker nor diagnostics matter to the rest of a bundle. */
  lemma MarkerAside(env: Env, n: nat, b: Bundle)
    requires Finished(env, n, b) && Validates(env, b)
    ensures forall marker, errors :: Finished(env, n, b.(marker := marker, errors := errors))
    ensures forall marker :: Validates(env, b.(marker := marker, errors := Some([])))
  {
    FinishedValidates(env, n, b);
  }

  // Resuming.

  /** reconstruct_registry_checkpoint on the bundle to resume. */
  method MakeCheckpoint(b: PartialBundle, env: Env, disk: Disk) returns (ok: bool, after: Disk)
    requires ParserOk(env.parse) && Good(env, disk) && disk.head.None?
    modifies b`events, b`troubles
    ensures Good(env, after)
    ensures ok ==> Reconstructed(env, disk) == Some(after)
    ensures b.Counted() && (ok <==> b.Untroubled() && Reconstructed(env, disk).Some?)
  {
    after := disk;
    var n := |disk.raw|;
    if n == 0 || n > env.maximumPages { return false, disk; }
    var st, lines := Reconstruct(env, disk.raw, n);
    if st.None? { return false, disk; }
    ReconstructedIsGood(env, disk);
    var fate := b.Next();
    if fate.Crashed? || fate.Failed? { return false, disk; }
    after := after.(lines := Some(lines));
    if !fate.Done? { return false, after; }
    fate := b.Next();
    if fate.Crashed? || fate.Failed? { return false, after; }
    var last := Some(Artifact(env, disk.raw[n]));
    after := after.(head := Some(Head(n, |st.value.records|, st.value.next, last, env.linesDigest(lines), |lines|, None)));
    return fate.Done?, after;
  }

  /** All of resume: refusals, the missing checkpoint, the checks, and the copy. The source's files may gain a checkpoint. */
  method Resume(b: PartialBundle, env: Env, source: Bundle)
    returns (ok: bool, after: Bundle, st: State, lines: seq<PageLine>, known: map<bytes, bytes>)
    requires ParserOk(env.parse) && GoodBundle(env, source)
    requires b.head == Some(HeadFor(env, START, None, [])) && b.lines == Some([]) && b.raw == map[]
    modifies b`raw, b`lines, b`head, b`events, b`troubles
    ensures Good(env, b.OnDisk()) && GoodBundle(env, after)
    ensures ok ==> !source.marker && Running(env, st, known, lines, b.OnDisk())
    ensures b.Counted() && (ok <==> b.Untroubled() && !source.marker && ResumeState(env, source.disk).Some?)
  {
    after, st, lines, known := source, START, [], map[];
    EmptyIsGood(env, b.OnDisk());
    if source.marker { ok := false; return; }
    if source.disk.head.None? {
      if !env.mode.Full? { ok := false; return; }
      var made, disk := MakeCheckpoint(b, env, source.disk);
      after := after.(disk := disk);
      if !made { ok := false; return; }
    }
    assert Prepared(env, source.disk) == Some(after.disk);
    var resumed;
    resumed, known := CheckResume(env, after.disk);
    if resumed.None? { ok := false; return; }
    st := resumed.value;
    ok, lines := Adopt(b, env, after.disk, st, known);
  }

  /** The page loop. */
  method CollectPages(b: PartialBundle, env: Env, first: State, known: map<bytes, bytes>, described: seq<PageLine>, times: Times)
    returns (ok: bool, st: State, lines: seq<PageLine>)
    requires Running(env, first, known, described, b.OnDisk())
    modifies b`raw, b`lines, b`head, b`events, b`troubles
    ensures Good(env, b.OnDisk())
    ensures ok ==> Chain(env, st.pages) == Some(st) && Ended(st) && Consistent(st.records)
    ensures ok ==> exists index :: Running(env, st, index, lines, b.OnDisk())
    ensures b.Counted() && (ok <==> b.Untroubled() && ChainEnds(env))
  {
    var index := known;
    st, lines := first, described;
    while !(st.pages != 0 && st.next.None?)
      invariant Running(env, st, index, lines, b.OnDisk()) && b.Untroubled()
      decreases env.maximumPages - st.pages
    {
      RunningIsGood(env, st, index, lines, b.OnDisk());
      var fate := b.Next();
      if !fate.Done? { return false, st, lines; }
      if ChainEnds(env) { MustContinue(env, st); }
      var more, newIndex := AcceptPage(env, st, index);
      if more.None? { return false, st, lines; }
      NextFollows(env, st, more.value);
      ok, lines := CommitPage(b, env, st, more.value, index, lines, newIndex, env.server(st.next), times.retrieved(st.pages));
      if !ok { return; }
      st, index := more.value, newIndex;
    }
    RunningIsGood(env, st, index, lines, b.OnDisk());
    IndexConsistent(index, st.records);
    assert EndsAt(env, st.pages);
    ok := true;
  }

  /** Nothing stands in the way of a resume, if there is one. */
  ghost predicate Resumable(env: Env, source: Option<Bundle>) {
    source.Some? ==> !source.value.marker && ResumeState(env, source.value.disk).Some?
  }

  /**
   * One process, fresh or resuming a bundle some earlier process left, with nothing at the output path yet. Whatever
   * happens to its writes: the directory it leaves and the one it resumed are good; what it moves to the output path is
   * the finished bundle of the whole chain, marked and valid; and if it reports success it has moved it. It does so, when
   * nothing goes wrong and the chain ends, exactly if the bundle to resume is accepted and the finished one is acceptable.
   */
  method Collect(env: Env, source: Option<Bundle>, plan: nat -> Fate, times: Times, othersOk: bool)
    returns (left: Bundle, resumed: Option<Bundle>, promoted: bool, r: RunResult, ghost troubles: nat)
    requires ParserOk(env.parse) && (source.Some? ==> GoodBundle(env, source.value))
    ensures GoodBundle(env, left) && (resumed.Some? <==> source.Some?) && (resumed.Some? ==> GoodBundle(env, resumed.value))
    ensures promoted ==> left.marker && Validates(env, left)
    ensures Correct(env, r) && (r.Completed? ==> promoted && left.canonical == Some(r.canonical))
    ensures Smooth(plan) ==> troubles == 0
    ensures r.Completed? ==> ChainEnds(env)
    ensures forall n | EndsAt(env, n) ::
              r.Completed? <==>
                troubles == 0 && Resumable(env, source) && Acceptable(env, n, times.started, times.completed, othersOk)
  {
    forall m, n | EndsAt(env, m) && EndsAt(env, n) ensures m == n { EndUnique(env, m, n); }
    var b := new PartialBundle(plan);
    var ok, st, lines;
    ok, resumed, st, lines := CollectAll(b, env, source, times);
    if !ok { b.Fail(); return b.Files(), resumed, false, Stopped, b.troubles; }
    r := Finish(b, env, st, lines, times, othersOk);
    assert EndsAt(env, st.pages);
    assert r.Completed? ==> IsFinal(env, st.pages, r);
    return b.Files(), resumed, b.promoted, r, b.troubles;
  }

  /** Everything up to the last page: the empty checkpoint, the resume, and the page loop. */
  method CollectAll(b: PartialBundle, env: Env, source: Option<Bundle>, times: Times)
    returns (ok: bool, resumed: Option<Bundle>, st: State, lines: seq<PageLine>)
    requires ParserOk(env.parse) && (source.Some? ==> GoodBundle(env, source.value)) && b.OnDisk() == Disk(map[], None, None)
    modifies b`raw, b`lines, b`head, b`events, b`troubles
    ensures Good(env, b.OnDisk()) && (resumed.Some? <==> source.Some?) && (resumed.Some? ==> GoodBundle(env, resumed.value))
    ensures ok ==> Chain(env, st.pages) == Some(st) && Ended(st) && Consistent(st.records)
    ensures ok ==> exists index :: Running(env, st, index, lines, b.OnDisk())
    ensures b.Counted() && (ok <==> b.Untroubled() && Resumable(env, source) && ChainEnds(env))
  {
    resumed, st, lines := source, START, [];
    var known := map[];
    ok := Initialize(b, env);
    if !ok { return; }
    if source.Some? {
      var after;
      ok, after, st, lines, known := Resume(b, env, source.value);
      resumed := Some(after);
      if !ok { return; }
    }
    ok, st, lines := CollectPages(b, env, st, known, lines, times);
  }

  /** A new process up to its first accepted page, with all its writes so far done and the third one from here fatal. */
  method FirstPage(env: Env) returns (b: PartialBundle, more: State, index: map<bytes, bytes>)
    requires NextPage(env, START).Some?
    ensures fresh(b) && CrashesBetween(b.plan, b.events) && b.head.Some?
    ensures Running(env, START, map[], [], b.OnDisk()) && Follows(env, START, more, env.server(None))
    ensures IsIndex(index, more.records) && |more.records| <= env.maximumRecords
  {
    b := new PartialBundle(k => if k < 5 then Done else Crashed);
    var _ := Initialize(b, env);
    var _ := b.Next();
    var accepted;
    accepted, index := AcceptPage(env, START, map[]);
    more := accepted.value;
    assert Chain(env, 0) == Some(START);
    NextFollows(env, START, more);
  }

  /** Its commit dies between the two replaces, and no process ever resumes what it leaves. */
  method RefusedResume(env: Env) returns (left: Disk)
    requires ParserOk(env.parse) && NextPage(env, START).Some?
    ensures Good(env, left) && left.head.Some? && ResumeState(env, left).None?
  {
    var b, more, index := FirstPage(env);
    var _, _ := CommitPage(b, env, START, more, map[], [], index, env.server(None), 0);
    left := b.OnDisk();
  }

  /** Such a run: one page without servers, under the program's default limits, whatever the digests are. */
  ghost function OnePage(sha: Sha, linesDigest: seq<PageLine> -> bytes): Env {
    Env(_ => EMPTY_PAGE, RegistryParser(sha), sha, linesDigest, 1_000, 8 * 1024 * 1024, 100_000, Full)
  }

  lemma OnePageAccepted(sha: Sha, linesDigest: seq<PageLine> -> bytes)
    ensures var env := OnePage(sha, linesDigest);
            ParserOk(env.parse) && NextPage(env, START) == Some(State(1, [], None, {})) && ChainEnds(env)
  {
    var env := OnePage(sha, linesDigest);
    RegistryParserOk(sha);
    EmptyPage(sha, false);
    assert env.parse(EMPTY_PAGE, false) == Some(Page([], None, None)) && [] + [] == START.records;
    assert Chain(env, 0) == Some(START);
    assert EndsAt(env, 1);
  }

  /** A registry of two pages: the first names the cursor of the second. */
  ghost function TwoPages(sha: Sha, linesDigest: seq<PageLine> -> bytes, pageBytes: nat): Env {
    Env((cursor: Option<bytes>) => if cursor == Some(FIRST_CURSOR) then EMPTY_PAGE else FIRST_PAGE,
        RegistryParser(sha), sha, linesDigest, 1_000, pageBytes, 100_000, Full)
  }

  /** A page that names a cursor does not end the chain, and the page for that cursor comes next. */
  lemma CursorContinues(env: Env, cursor: bytes)
    requires env.maximumPages >= 2 && |env.server(None)| <= env.maximumPageBytes && |env.server(Some(cursor))| <= env.maximumPageBytes
    requires env.parse(env.server(None), false) == Some(Page([], Some(cursor), None))
    requires env.parse(env.server(Some(cursor)), false) == Some(Page([], None, None))
    ensures Chain(env, 1) == Some(State(1, [], Some(cursor), {cursor})) && !EndsAt(env, 1)
    ensures Chain(env, 2) == Some(State(2, [], None, {cursor})) && EndsAt(env, 2)
  {
    assert Chain(env, 0) == Some(START);
    assert [] + [] == START.records && {} + {cursor} == {cursor};
    assert NextPage(env, START) == Some(State(1, [], Some(cursor), {cursor}));
    assert NextPage(env, State(1, [], Some(cursor), {cursor})) == Some(State(2, [], None, {cursor}));
  }

  /** So with the registry's parser, whatever page size is allowed as long as both fit. */
  lemma TwoPagesEnd(sha: Sha, linesDigest: seq<PageLine> -> bytes, pageBytes: nat)
    requires |FIRST_PAGE| <= pageBytes && |EMPTY_PAGE| <= pageBytes
    ensures var env := TwoPages(sha, linesDigest, pageBytes);
            Chain(env, 1).Some? && !EndsAt(env, 1) && EndsAt(env, 2)
  {
    FirstPageRead(sha);
    EmptyPage(sha, false);
    CursorContinues(TwoPages(sha, linesDigest, pageBytes), FIRST_CURSOR);
  }

  /** Two runs that complete have written the same bytes. */
  lemma FinalUnique(env: Env, a: RunResult, b: RunResult)
    requires Correct(env, a) && a.Completed? && Correct(env, b) && b.Completed?
    ensures a == b
  {
    var m :| IsFinal(env, m, a);
    var n :| IsFinal(env, n, b);
    EndUnique(env, m, n);
  }

  /** What stands at the output path after some processes: nothing, or the bundle of an undisturbed run. */
  ghost predicate Published(env: Env, output: Option<Bundle>, undisturbed: RunResult)
    requires undisturbed.Completed?
  {
    output.Some? ==> output.value.marker && Validates(env, output.value) && output.value.canonical == Some(undisturbed.canonical)
  }

  lemma MarkedIsUndisturbed(env: Env, b: Bundle, undisturbed: RunResult)
    requires GoodBundle(env, b) && b.marker && Correct(env, undisturbed) && undisturbed.Completed?
    ensures b.canonical == Some(undisturbed.canonical)
  {
    var n :| Finished(env, n, b);
    FinalUnique(env, Completed(FinalText(env, n), FinalCount(env, n)), undisturbed) by {
      assert IsFinal(env, n, Completed(FinalText(env, n), FinalCount(env, n)));
    }
  }

  /**
   * Any number of processes one after another, each starting afresh or resuming any directory left so far, each with its
   * own fates: every directory stays good, and whatever reaches the output path is the bundle of a run without any crash.
   */
  method CollectRepeatedly(env: Env, left: seq<Bundle>, plans: seq<nat -> Fate>, choices: seq<nat>, times: Times, othersOk: bool,
                           ghost undisturbed: RunResult)
    returns (directories: seq<Bundle>, output: Option<Bundle>, r: RunResult)
    requires ParserOk(env.parse) && |choices| == |plans| && forall b | b in left :: GoodBundle(env, b)
    requires Correct(env, undisturbed) && undisturbed.Completed?
    ensures forall b | b in directories :: GoodBundle(env, b)
    ensures Published(env, output, undisturbed)
    ensures r.Completed? ==> r == undisturbed && output.Some?
  {
    directories, output, r := left, None, Stopped;
    var i := 0;
    while i < |plans| && output.None?
      invariant forall b | b in directories :: GoodBundle(env, b)
      invariant Published(env, output, undisturbed) && Correct(env, r) && (r.Completed? ==> output.Some?)
      decreases |plans| - i
    {
      var at := choices[i];
      var bundle, resumed, promoted;
      ghost var troubles: nat;
      bundle, resumed, promoted, r, troubles :=
        Collect(env, if at < |directories| then Some(directories[at]) else None, plans[i], times, othersOk);
      if resumed.Some? { directories := directories[at := resumed.value]; }
      if promoted {
        MarkedIsUndisturbed(env, bundle, undisturbed);
        output := Some(bundle);
      } else {
        directories := directories + [bundle];
      }
      i := i + 1;
    }
    if r.Completed? { FinalUnique(env, r, undisturbed); }
  }
}
