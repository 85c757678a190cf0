/** The static-analysis scheduler: processes that share one table, claim packages, may die, and report results. */
module StaticScheduler {
  import opened Wrappers
  import opened SchedulerRows

  /**
   * What happens to a package's row: a process claims it, the process of some claim answers, a claim is recovered as
   * stale, or a synchronization finds a run that makes the row completed.
   */
  datatype Event = Claim | Answer(claim: nat) | Recovery | FoundRun

  /** What an analysis child leaves to record: a state and its columns. */
  datatype Result = Result(
    state: State, code: Option<string>, message: Option<string>, run: Option<nat>, artifact: Option<string>, reused: bool)

  type History = seq<Event>

  function Claims(h: History): nat { if h == [] then 0 else Claims(h[..|h| - 1]) + if h[|h| - 1] == Claim then 1 else 0 }

  /** The last thing that happened is a claim. */
  predicate Open(h: History) { h != [] && h[|h| - 1] == Claim }

  /** Whatever was claimed before has been answered or recovered. */
  predicate Free(h: History) { h == [] || h[|h| - 1].Answer? || h[|h| - 1].Recovery? }

  /** May this event come next? A claim answers at most once. */
  predicate Allowed(h: History, e: Event) {
    match e
    case Claim => Free(h)
    case Answer(claim) => 1 <= claim <= Claims(h) && e !in h
    case Recovery => Open(h)
    case FoundRun => true
  }

  predicate Regular(h: History) {
    h == [] || (Regular(h[..|h| - 1]) && Allowed(h[..|h| - 1], h[|h| - 1]))
  }

  lemma AppendEvent(h: History, e: Event)
    requires Regular(h) && Allowed(h, e)
    ensures Regular(h + [e]) && Claims(h + [e]) == Claims(h) + (if e == Claim then 1 else 0)
    ensures Open(h + [e]) <==> e == Claim
  {
    assert (h + [e])[..|h|] == h;
  }

  lemma {:induction false} RegularAt(h: History, i: nat)
    requires Regular(h) && i < |h|
    ensures Regular(h[..i]) && Allowed(h[..i], h[i])
  {
    if i < |h| - 1 {
      var before := h[..|h| - 1];
      RegularAt(before, i);
      assert before[..i] == h[..i];
    }
  }

  /** Between two claims of a package, an answer or a recovery released the first. */
  lemma ClaimedOnceReleased(h: History, i: nat, j: nat)
    requires Regular(h) && i < j < |h| && h[i] == Claim && h[j] == Claim
    ensures exists k :: i < k < j && (h[k].Answer? || h[k].Recovery?)
  {
    RegularAt(h, j);
    assert h[..j][j - 1] == h[j - 1];
  }

  /** Behind a found run there is no claim before an answer. */
  lemma {:induction false} FoundRunStays(h: History, i: nat, j: nat)
    requires Regular(h) && i < j < |h| && h[i] == FoundRun && h[j] == Claim
    ensures exists k :: i < k < j && h[k].Answer?
    decreases j
  {
    RegularAt(h, j);
    assert h[..j][j - 1] == h[j - 1];
    if h[j - 1].Recovery? {
      RegularAt(h, j - 1);
      assert h[..j - 1][j - 2] == h[j - 2];
      FoundRunStays(h, i, j - 2);
    }
  }

  /** While no claim was recovered, all claims but the newest have been answered. */
  lemma {:induction false} EarlierAnswered(h: History, claim: nat)
    requires Regular(h) && Recovery !in h && 1 <= claim < Claims(h)
    ensures Answer(claim) in h
  {
    var n := |h| - 1;
    var before := h[..n];
    if claim < Claims(before) {
      EarlierAnswered(before, claim);
    } else {
      var last := before[n - 1];
      assert last.Answer? by { assert last in h; }
      assert before[..n - 1] == h[..n - 1];
      if last.claim < claim {
        assert Claims(before[..n - 1]) == Claims(before);
        EarlierAnswered(before[..n - 1], last.claim);
      }
    }
  }

  /** So an answer that is not from the newest claim takes a recovery. */
  lemma AnswerFromNewest(h: History, claim: nat)
    requires Regular(h) && Recovery !in h && Allowed(h, Answer(claim))
    ensures claim == Claims(h)
  {
    if claim < Claims(h) { EarlierAnswered(h, claim); }
  }

  function Past(histories: map<nat, History>, id: nat): History { if id in histories then histories[id] else [] }

  /** Attempts of every package, added up. */
  ghost function TotalClaims(ids: set<nat>, histories: map<nat, History>): nat {
    if ids == {} then 0
    else
      var id :| id in ids;
      Claims(Past(histories, id)) + TotalClaims(ids - {id}, histories)
  }

  lemma {:induction false} TotalBounded(ids: set<nat>, histories: map<nat, History>, each: nat)
    requires forall id | id in ids :: Claims(Past(histories, id)) <= each
    ensures TotalClaims(ids, histories) <= |ids| * each
  {
    if ids != {} {
      var id :| id in ids && TotalClaims(ids, histories) == Claims(Past(histories, id)) + TotalClaims(ids - {id}, histories);
      TotalBounded(ids - {id}, histories, each);
      OneMore(|ids - {id}|, each);
    }
  }

  lemma OneMore(n: nat, each: nat)
    ensures (n + 1) * each == n * each + each
  {}

  /** What a row owes to what happened to its package: running exactly while a claim is open. */
  ghost predicate RowOk(p: Package, runs: map<nat, Run>, profile: Profile, maximumAttempts: nat, row: Row, h: History) {
    && row.attempts == Claims(h) <= maximumAttempts && Regular(h)
    && (Open(h) <==> row.state == Running)
    && (h != [] && h[|h| - 1] == FoundRun ==> row.state == Completed)
    && (row.state == Completed ==> NamesRun(runs, profile, row))
    && (h != [] && h != [FoundRun] ==> Classify(p).0 == Eligible)
    && (row.state == Eligible || row.state == Running || row.state == Failed ==> Classify(p).0 == Eligible)
  }

  /** What a synchronization that knows a run or none does to an existing row, by its cause. */
  function Cause(known: Option<(nat, string)>, row: Row, cutoff: int): Option<Event> {
    if known.Some? then (if row.state == Completed then None else Some(FoundRun))
    else if Stale(row, cutoff) then Some(Recovery)
    else None
  }

  function After(h: History, e: Option<Event>): History { if e.Some? then h + [e.value] else h }

  /** A package's history after a synchronization. */
  function SyncedHistory(runs: map<nat, Run>, profile: Profile, id: nat, existing: Option<Row>, h: History, cutoff: int): History {
    if existing.None? then h else After(h, Cause(KnownRun(runs, profile, id, existing), existing.value, cutoff))
  }

  ghost predicate HistoriesSynced(
      packages: map<nat, Package>, runs: map<nat, Run>, profile: Profile, rows: map<nat, Row>, histories: map<nat, History>, cutoff: int,
      later: map<nat, History>)
  {
    && later.Keys == packages.Keys
    && forall id | id in packages :: later[id] == SyncedHistory(runs, profile, id, RowAt(rows, id), Past(histories, id), cutoff)
  }

  function SyncedHistories(
      packages: map<nat, Package>, runs: map<nat, Run>, profile: Profile, rows: map<nat, Row>, histories: map<nat, History>, cutoff: int)
    : (r: map<nat, History>)
    ensures HistoriesSynced(packages, runs, profile, rows, histories, cutoff, r)
  {
    map id | id in packages :: SyncedHistory(runs, profile, id, RowAt(rows, id), Past(histories, id), cutoff)
  }

  /** The single update that fails stale rows. */
  function RecoverAll(rows: map<nat, Row>, cutoff: int): (r: map<nat, Row>)
    ensures r.Keys == rows.Keys && forall id | id in rows :: r[id] == Recovered(rows[id], cutoff)
  {
    map id | id in rows :: Recovered(rows[id], cutoff)
  }

  /** A new row stands for no event. */
  lemma NewRowOk(runs: map<nat, Run>, profile: Profile, maximumAttempts: nat, id: nat, p: Package, now: int, cutoff: int)
    ensures RowOk(p, runs, profile, maximumAttempts, Recovered(SyncedRow(runs, profile, id, p, None, now), cutoff), [])
  {}

  lemma SyncedOk(
      runs: map<nat, Run>, profile: Profile, maximumAttempts: nat, id: nat, p: Package, row: Row, h: History, now: int, cutoff: int)
    requires RowOk(p, runs, profile, maximumAttempts, row, h)
    ensures RowOk(p, runs, profile, maximumAttempts, Recovered(SyncedRow(runs, profile, id, p, Some(row), now), cutoff),
                  SyncedHistory(runs, profile, id, Some(row), h, cutoff))
  {
    SyncedRowFacts(runs, profile, id, p, Some(row), now, cutoff);
    SyncedState(runs, profile, id, p, row, now, cutoff);
    var e := Cause(KnownRun(runs, profile, id, Some(row)), row, cutoff);
    if e.Some? { AppendEvent(h, e.value); }
  }

  lemma SyncedRowOk(
      runs: map<nat, Run>, profile: Profile, maximumAttempts: nat, id: nat, p: Package, existing: Option<Row>, h: History, now: int, cutoff: int)
    requires if existing.Some? then RowOk(p, runs, profile, maximumAttempts, existing.value, h) else h == []
    ensures RowOk(p, runs, profile, maximumAttempts, Recovered(SyncedRow(runs, profile, id, p, existing, now), cutoff),
                  SyncedHistory(runs, profile, id, existing, h, cutoff))
  {
    if existing.Some? {
      SyncedOk(runs, profile, maximumAttempts, id, p, existing.value, h, now, cutoff);
    } else {
      NewRowOk(runs, profile, maximumAttempts, id, p, now, cutoff);
    }
  }

  function Candidates(rows: map<nat, Row>, maximumAttempts: nat, cutoff: int): (ids: set<nat>)
    ensures ids <= rows.Keys
  {
    set id | id in rows && Claimable(rows[id], maximumAttempts, cutoff)
  }

  lemma NoneWaits(rows: map<nat, Row>, maximumAttempts: nat, cutoff: int)
    ensures Candidates(rows, maximumAttempts, cutoff) == {} <==> forall id | id in rows :: !Waiting(rows[id], maximumAttempts, cutoff)
  {
    forall id | id in rows ensures id in Candidates(rows, maximumAttempts, cutoff) <==> Waiting(rows[id], maximumAttempts, cutoff) {
      ClaimableExactly(rows[id], maximumAttempts, cutoff);
    }
  }

  /** candidates with a limit of one: the first waiting package. */
  method Choose(rows: map<nat, Row>, maximumAttempts: nat, cutoff: int) returns (chosen: Option<nat>)
    ensures chosen.None? <==> forall id | id in rows :: !Waiting(rows[id], maximumAttempts, cutoff)
    ensures chosen.Some? ==>
              IsFirst(rows, maximumAttempts, cutoff, chosen.value) && Claimable(rows[chosen.value], maximumAttempts, cutoff)
  {
    var ids := Candidates(rows, maximumAttempts, cutoff);
    NoneWaits(rows, maximumAttempts, cutoff);
    if ids == {} { return None; }
    BestExists(rows, ids);
    var id :| IsBest(rows, ids, id);
    BestIsFirst(rows, ids, maximumAttempts, cutoff, id);
    return Some(id);
  }

  lemma ClaimedOk(p: Package, runs: map<nat, Run>, profile: Profile, maximumAttempts: nat, row: Row, h: History, now: int, cutoff: int)
    requires RowOk(p, runs, profile, maximumAttempts, row, h) && Claimable(row, maximumAttempts, cutoff)
    ensures RowOk(p, runs, profile, maximumAttempts, Claimed(row, now), h + [Claim])
  {
    AppendEvent(h, Claim);
  }

  predicate Acceptable(runs: map<nat, Run>, profile: Profile, result: Result) {
    result.state == Completed ==>
      result.run.Some? && result.artifact.Some? && Verified(runs, profile, result.run.value, result.artifact.value)
  }

  const MISMATCH := "analysis child result does not match the authoritative database run"

  /** What is recorded when verification or the write fails. */
  function Rejected(message: string): Result {
    Result(Failed, Some("result_verification_failed"), Some(message), None, None, false)
  }

  /** What becomes of a result: verified first, then written, and the reason why not. */
  function Stored(runs: map<nat, Run>, profile: Profile, result: Result, writeError: Option<string>): (r: Result)
    ensures Acceptable(runs, profile, r)
    ensures result.state != Running ==> r.state != Running
  {
    if !Acceptable(runs, profile, result) then Rejected(MISMATCH)
    else if writeError.Some? then Rejected(writeError.value)
    else result
  }

  /** set_result: an empty message, after bounding its length, is stored as none. */
  function WithResult(row: Row, r: Result, bounded: string -> string): Row {
    row.(state := r.state, code := r.code, run := r.run, artifact := r.artifact, reused := r.reused,
         message := NonEmpty(Some(bounded(if r.message.Some? then r.message.value else ""))))
  }

  const REFUSED := "result_verification_failed"

  /** What a result leaves in the row: itself, or a failure with the reason when it does not verify or was not written. */
  lemma RecordedColumns(runs: map<nat, Run>, profile: Profile, row: Row, result: Result, writeError: Option<string>, bounded: string -> string)
    ensures var after := WithResult(row, Stored(runs, profile, result, writeError), bounded);
            var unverified := result.state == Completed &&
              !(result.run.Some? && result.artifact.Some? && Verified(runs, profile, result.run.value, result.artifact.value));
            && after.attempts == row.attempts && after.lastAttempt == row.lastAttempt && after.discovered == row.discovered
            && (unverified ==> RefusedFor(after, bounded(MISMATCH)))
            && (!unverified && writeError.Some? ==> RefusedFor(after, bounded(writeError.value)))
            && (!unverified && writeError.None? ==>
                  && (after.state, after.code, after.run, after.artifact, after.reused) ==
                     (result.state, result.code, result.run, result.artifact, result.reused)
                  && Says(after, bounded(if result.message == None then "" else result.message.value)))
  {}

  predicate Says(row: Row, text: string) { if |text| == 0 then row.message == None else row.message == Some(text) }

  predicate RefusedFor(row: Row, text: string) {
    && (row.state, row.code, row.run, row.artifact, row.reused) == (Failed, Some(REFUSED), None, None, false) && Says(row, text)
  }

  lemma AnsweredOk(p: Package, runs: map<nat, Run>, profile: Profile, maximumAttempts: nat, row: Row, h: History, claim: nat,
                   result: Result, bounded: string -> string)
    requires RowOk(p, runs, profile, maximumAttempts, row, h) && Allowed(h, Answer(claim))
    requires result.state != Running && result.state != Eligible && Acceptable(runs, profile, result)
    ensures RowOk(p, runs, profile, maximumAttempts, WithResult(row, result, bounded), h + [Answer(claim)])
  {
    AppendEvent(h, Answer(claim));
    assert (h + [Answer(claim)])[|h|] == Answer(claim);
  }

  /** A result arriving from one claim while another claim holds the row. */
  predicate Intrudes(row: Row, claim: nat) { row.state == Running && row.attempts != claim }

  ghost predicate AllRowsOk(
      packages: map<nat, Package>, runs: map<nat, Run>, profile: Profile, maximumAttempts: nat,
      rows: map<nat, Row>, histories: map<nat, History>)
  {
    && rows.Keys == histories.Keys && rows.Keys <= packages.Keys
    && forall id {:trigger RowOk(packages[id], runs, profile, maximumAttempts, rows[id], histories[id])} | id in rows ::
         RowOk(packages[id], runs, profile, maximumAttempts, rows[id], histories[id])
  }

  /** Synchronizing keeps every row in step with its package's history, whose releases carry their causes. */
  lemma AllSyncedOk(
      packages: map<nat, Package>, runs: map<nat, Run>, profile: Profile, maximumAttempts: nat,
      rows: map<nat, Row>, histories: map<nat, History>, now: int, cutoff: int, after: map<nat, Row>, later: map<nat, History>)
    requires AllRowsOk(packages, runs, profile, maximumAttempts, rows, histories)
    requires RowsSynced(packages, runs, profile, rows, now, cutoff, after)
    requires HistoriesSynced(packages, runs, profile, rows, histories, cutoff, later)
    ensures AllRowsOk(packages, runs, profile, maximumAttempts, after, later)
  {
    forall id | id in after ensures RowOk(packages[id], runs, profile, maximumAttempts, after[id], later[id]) {
      SyncedAt(packages, runs, profile, maximumAttempts, rows, histories, now, cutoff, id, after[id], later[id]);
    }
  }

  lemma SyncedAt(
      packages: map<nat, Package>, runs: map<nat, Run>, profile: Profile, maximumAttempts: nat,
      rows: map<nat, Row>, histories: map<nat, History>, now: int, cutoff: int, id: nat, after: Row, later: History)
    requires AllRowsOk(packages, runs, profile, maximumAttempts, rows, histories) && id in packages
    requires after == Recovered(SyncedRow(runs, profile, id, packages[id], RowAt(rows, id), now), cutoff)
    requires later == SyncedHistory(runs, profile, id, RowAt(rows, id), Past(histories, id), cutoff)
    ensures RowOk(packages[id], runs, profile, maximumAttempts, after, later)
  {
    if id in rows { assert RowOk(packages[id], runs, profile, maximumAttempts, rows[id], histories[id]); }
    SyncedRowOk(runs, profile, maximumAttempts, id, packages[id], RowAt(rows, id), Past(histories, id), now, cutoff);
  }

  /** A running row is no longer running exactly when a run is known for its package or its claim is stale. */
  ghost predicate ReleasedFor(runs: map<nat, Run>, profile: Profile, before: map<nat, Row>, after: map<nat, Row>, cutoff: int) {
    forall id | id in before && before[id].state == Running :: ReleasedRow(runs, profile, id, before[id], RowAt(after, id), cutoff)
  }

  predicate ReleasedRow(runs: map<nat, Run>, profile: Profile, id: nat, before: Row, after: Option<Row>, cutoff: int) {
    after.Some? && (after.value.state != Running <==> KnownRun(runs, profile, id, Some(before)).Some? || Stale(before, cutoff))
  }

  lemma AllReleasedFor(
      packages: map<nat, Package>, runs: map<nat, Run>, profile: Profile, maximumAttempts: nat,
      rows: map<nat, Row>, histories: map<nat, History>, now: int, cutoff: int, after: map<nat, Row>)
    requires AllRowsOk(packages, runs, profile, maximumAttempts, rows, histories)
    requires RowsSynced(packages, runs, profile, rows, now, cutoff, after)
    ensures ReleasedFor(runs, profile, rows, after, cutoff)
  {
    forall id | id in rows && rows[id].state == Running ensures ReleasedRow(runs, profile, id, rows[id], RowAt(after, id), cutoff) {
      assert RowOk(packages[id], runs, profile, maximumAttempts, rows[id], histories[id]);
      ReleasedExactly(runs, profile, id, packages[id], rows[id], now, cutoff);
    }
  }

  /** Completed rows stay completed. */
  ghost predicate StayCompleted(before: map<nat, Row>, after: map<nat, Row>) {
    forall id | id in before && before[id].state == Completed :: id in after && after[id].state == Completed
  }

  lemma AllStayCompleted(
      packages: map<nat, Package>, runs: map<nat, Run>, profile: Profile, maximumAttempts: nat,
      rows: map<nat, Row>, histories: map<nat, History>, now: int, cutoff: int, after: map<nat, Row>)
    requires AllRowsOk(packages, runs, profile, maximumAttempts, rows, histories)
    requires RowsSynced(packages, runs, profile, rows, now, cutoff, after)
    ensures StayCompleted(rows, after)
  {
    forall id | id in rows && rows[id].state == Completed ensures id in after && after[id].state == Completed {
      assert RowOk(packages[id], runs, profile, maximumAttempts, rows[id], histories[id]);
      NeverDemotes(packages, runs, profile, rows, now, cutoff, after, id);
    }
  }

  class Schedule {
    const profile: Profile
    const maximumAttempts: nat
    const bounded: string -> string
    var packages: map<nat, Package>
    var runs: map<nat, Run>
    var rows: map<nat, Row>
    ghost var histories: map<nat, History>

    ghost predicate Valid()
      reads this
    {
      AllRowsOk(packages, runs, profile, maximumAttempts, rows, histories)
    }

    constructor (profile: Profile, maximumAttempts: nat, bounded: string -> string)
      ensures Valid() && packages == map[] && runs == map[] && rows == map[] && histories == map[]
      ensures this.profile == profile && this.maximumAttempts == maximumAttempts && this.bounded == bounded
    {
      this.profile := profile;
      this.maximumAttempts := maximumAttempts;
      this.bounded := bounded;
      packages := map[];
      runs := map[];
      rows := map[];
      histories := map[];
    }

    /** No package is claimed more than the maximum, so all claims together are bounded too. */
    lemma ClaimsBounded()
      requires Valid()
      ensures forall id | id in rows :: rows[id].attempts == Claims(histories[id]) <= maximumAttempts
      ensures TotalClaims(packages.Keys, histories) <= |packages.Keys| * maximumAttempts
    {
      forall id | id in packages.Keys ensures Claims(Past(histories, id)) <= maximumAttempts {
        if id in rows { assert RowOk(packages[id], runs, profile, maximumAttempts, rows[id], histories[id]); }
      }
      TotalBounded(packages.Keys, histories, maximumAttempts);
      forall id | id in rows ensures rows[id].attempts == Claims(histories[id]) <= maximumAttempts {
        assert RowOk(packages[id], runs, profile, maximumAttempts, rows[id], histories[id]);
      }
    }

    /** A row that is running stays so until its claim is answered or recovered, or a run is found; then see the history. */
    lemma OneHolder(id: nat)
      requires Valid() && id in rows
      ensures rows[id].state == Running <==> Open(histories[id])
      ensures forall i, j | 0 <= i < j < |histories[id]| && histories[id][i] == Claim && histories[id][j] == Claim ::
                exists k :: i < k < j && (histories[id][k].Answer? || histories[id][k].Recovery?)
      ensures forall i, j | 0 <= i < j < |histories[id]| && histories[id][i] == FoundRun && histories[id][j] == Claim ::
                exists k :: i < k < j && histories[id][k].Answer?
    {
      var h := histories[id];
      assert RowOk(packages[id], runs, profile, maximumAttempts, rows[id], h);
      forall i, j | 0 <= i < j < |h| && h[i] == Claim && h[j] == Claim
        ensures exists k :: i < k < j && (h[k].Answer? || h[k].Recovery?)
      {
        ClaimedOnceReleased(h, i, j);
      }
      forall i, j | 0 <= i < j < |h| && h[i] == FoundRun && h[j] == Claim
        ensures exists k :: i < k < j && h[k].Answer?
      {
        FoundRunStays(h, i, j);
      }
    }

    /** As long as no claim of a package was recovered as stale, no result arrives while another claim holds its row. */
    lemma NoIntrusion(id: nat, claim: nat)
      requires Valid() && id in rows && Allowed(histories[id], Answer(claim)) && Recovery !in histories[id]
      ensures !Intrudes(rows[id], claim)
    {
      assert RowOk(packages[id], runs, profile, maximumAttempts, rows[id], histories[id]);
      AnswerFromNewest(histories[id], claim);
    }

    // The world around the scheduler.

    method AddPackage(id: nat, p: Package)
      requires Valid() && id !in packages
      modifies this`packages
      ensures Valid() && packages == old(packages)[id := p]
    {
      packages := packages[id := p];
      forall k | k in rows ensures RowOk(packages[k], runs, profile, maximumAttempts, rows[k], histories[k]) {
        assert RowOk(old(packages)[k], runs, profile, maximumAttempts, rows[k], histories[k]);
      }
    }

    /** Some process records a run; recorded runs never change. */
    method AddRun(id: nat, run: Run)
      requires Valid() && id !in runs
      modifies this`runs
      ensures Valid() && runs == old(runs)[id := run]
    {
      runs := runs[id := run];
      forall k | k in rows ensures RowOk(packages[k], runs, profile, maximumAttempts, rows[k], histories[k]) {
        assert RowOk(packages[k], old(runs), profile, maximumAttempts, rows[k], histories[k]);
      }
    }

    // Transactions.

    /** The loop of synchronize: each package's row is decided from its runs and its row before. */
    method SynchronizeRows(now: int)
      requires rows.Keys <= packages.Keys
      modifies this`rows
      ensures rows.Keys == packages.Keys
      ensures forall id | id in packages ::
                rows[id] == SyncedRow(runs, profile, id, packages[id], RowAt(old(rows), id), now)
    {
      ghost var before := rows;
      var todo := packages.Keys;
      while todo != {}
        invariant todo <= packages.Keys && rows.Keys <= packages.Keys
        invariant forall id | id in packages && id !in todo ::
                    id in rows && rows[id] == SyncedRow(runs, profile, id, packages[id], RowAt(before, id), now)
        invariant forall id | id in todo :: RowAt(rows, id) == RowAt(before, id)
        decreases todo
      {
        var id :| id in todo;
        var existing := RowAt(rows, id);
        var known := KnownRun(runs, profile, id, existing);
        rows := rows[id := Applied(Decide(packages[id], existing, known), existing, now)];
        todo := todo - {id};
      }
    }

    /**
     * synchronize: the loop, then one update that recovers stale rows. A running row leaves that state for a known run or
     * for its age only, and its package's history says which.
     */
    method Synchronize(now: int, stale: nat)
      requires Valid()
      modifies this`rows, this`histories
      ensures Valid()
      ensures RowsSynced(packages, runs, profile, old(rows), now, now - stale, rows)
      ensures HistoriesSynced(packages, runs, profile, old(rows), old(histories), now - stale, histories)
      ensures ReleasedFor(runs, profile, old(rows), rows, now - stale)
      ensures StayCompleted(old(rows), rows)
    {
      ghost var before, past := rows, histories;
      RewriteRows(now, stale);
      histories := SyncedHistories(packages, runs, profile, before, past, now - stale);
      AllSyncedOk(packages, runs, profile, maximumAttempts, before, past, now, now - stale, rows, histories);
      AllReleasedFor(packages, runs, profile, maximumAttempts, before, past, now, now - stale, rows);
      AllStayCompleted(packages, runs, profile, maximumAttempts, before, past, now, now - stale, rows);
    }

    /** Synchronizing a second time at once changes no row. */
    method SynchronizeTwice(now: int, stale: nat) returns (ghost once: map<nat, Row>)
      requires Valid()
      modifies this`rows, this`histories
      ensures Valid()
      ensures RowsSynced(packages, runs, profile, old(rows), now, now - stale, once) && rows == once
    {
      ghost var before := rows;
      Synchronize(now, stale);
      once := rows;
      Synchronize(now, stale);
      SyncIdempotent(packages, runs, profile, before, now, now - stale, once, rows);
    }

    /** The loop and the recovery. */
    method RewriteRows(now: int, stale: nat)
      requires rows.Keys <= packages.Keys
      modifies this`rows
      ensures RowsSynced(packages, runs, profile, old(rows), now, now - stale, rows)
    {
      SynchronizeRows(now);
      rows := RecoverAll(rows, now - stale);
    }

    /** claim_next: the first candidate, if any, becomes running. */
    method ClaimNext(now: int, retry: nat) returns (claimed: Option<nat>)
      requires Valid()
      modifies this`rows, this`histories
      ensures Valid()
      ensures claimed.None? <==> forall id | id in old(rows) :: !Waiting(old(rows)[id], maximumAttempts, now - retry)
      ensures claimed.None? ==> rows == old(rows) && histories == old(histories)
      ensures claimed.Some? ==>
                && IsFirst(old(rows), maximumAttempts, now - retry, claimed.value)
                && old(rows)[claimed.value].state != Running && Free(old(histories)[claimed.value])
                && var row := old(rows)[claimed.value];
                && rows == old(rows)[claimed.value :=
                     Row(Running, None, None, row.run, row.artifact, row.attempts + 1, Some(now), row.reused, row.discovered)]
                && histories == old(histories)[claimed.value := old(histories)[claimed.value] + [Claim]]
    {
      var chosen := Choose(rows, maximumAttempts, now - retry);
      if chosen.None? { return None; }
      var id := chosen.value;
      assert RowOk(packages[id], runs, profile, maximumAttempts, rows[id], histories[id]);
      ClaimedOk(packages[id], runs, profile, maximumAttempts, rows[id], histories[id], now, now - retry);
      rows := rows[id := Claimed(rows[id], now)];
      histories := histories[id := histories[id] + [Claim]];
      return Some(id);
    }

    /**
     * The second transaction of analyze_claimed, whenever the process of that claim gets there; one that dies never does.
     * It asks nothing of the row, so it may overwrite a row that a later claim holds.
     */
    method RecordResult(id: nat, claim: nat, result: Result, writeError: Option<string>)
      requires Valid() && id in rows && Allowed(histories[id], Answer(claim))
      requires result.state != Running && result.state != Eligible
      modifies this`rows, this`histories
      ensures Valid()
      ensures rows == old(rows)[id := WithResult(old(rows)[id], Stored(runs, profile, result, writeError), bounded)]
      ensures histories == old(histories)[id := old(histories)[id] + [Answer(claim)]]
      ensures Intrudes(old(rows)[id], claim) ==> Recovery in old(histories)[id]
    {
      assert RowOk(packages[id], runs, profile, maximumAttempts, rows[id], histories[id]);
      if Recovery !in histories[id] { NoIntrusion(id, claim); }
      var stored := Stored(runs, profile, result, writeError);
      AnsweredOk(packages[id], runs, profile, maximumAttempts, rows[id], histories[id], claim, stored, bounded);
      rows := rows[id := WithResult(rows[id], stored, bounded)];
      histories := histories[id := histories[id] + [Answer(claim)]];
    }
  }

  // A run in which a late result hands a package to a third process while the second is at work on it.

  const HOUR := 3600
  const PACKAGE := Package("npm", "left-pad", "1.0.0")

  /** One package, no runs, and its row like this. */
  ghost predicate Only(s: Schedule, state: State, attempts: nat, lastAttempt: int, h: History)
    reads s
  {
    && s.Valid() && s.packages == map[1 := PACKAGE] && s.runs == map[] && s.maximumAttempts == 3
    && s.rows.Keys == {1} && s.rows[1].state == state && s.rows[1].attempts == attempts && s.rows[1].lastAttempt == Some(lastAttempt)
    && s.histories[1] == h
  }

  /** The package, claimable at this time, is claimed. */
  method ClaimOnly(s: Schedule, now: int, ghost attempts: nat, ghost lastAttempt: int, ghost h: History)
    requires Only(s, Failed, attempts, lastAttempt, h) && attempts < 3 && lastAttempt <= now
    modifies s`rows, s`histories
    ensures Only(s, Running, attempts + 1, now, h + [Claim])
  {
    assert Waiting(s.rows[1], s.maximumAttempts, now - 0);
    var claimed := s.ClaimNext(now, 0);
  }

  /** A new schedule with the package, claimed at time zero. */
  method FirstClaim(profile: Profile) returns (s: Schedule)
    ensures fresh(s) && Only(s, Running, 1, 0, [Claim])
  {
    s := new Schedule(profile, 3, message => message);
    s.AddPackage(1, PACKAGE);
    s.Synchronize(0, HOUR);
    assert Waiting(s.rows[1], s.maximumAttempts, 0 - 0);
    var claimed := s.ClaimNext(0, 0);
  }

  /** An hour later the claim is stale. */
  method RecoverOnly(s: Schedule)
    requires Only(s, Running, 1, 0, [Claim])
    modifies s`rows, s`histories
    ensures Only(s, Failed, 1, 0, [Claim, Recovery])
  {
    SyncedRowFacts(map[], s.profile, 1, PACKAGE, Some(s.rows[1]), HOUR, 0);
    SyncedState(map[], s.profile, 1, PACKAGE, s.rows[1], HOUR, 0);
    s.Synchronize(HOUR, HOUR);
  }

  /** The first process reports a failure, whoever holds the row. */
  method AnswerLate(s: Schedule)
    requires Only(s, Running, 2, HOUR, [Claim, Recovery, Claim])
    modifies s`rows, s`histories
    ensures Intrudes(old(s.rows)[1], 1)
    ensures Only(s, Failed, 2, HOUR, [Claim, Recovery, Claim, Answer(1)])
  {
    assert RowOk(s.packages[1], s.runs, s.profile, 3, s.rows[1], s.histories[1]);
    var failure := Result(Failed, Some("analysis_failed"), Some("analysis child exited with status 1"), None, None, false);
    s.RecordResult(1, 1, failure, None);
  }

  /**
   * An hour after its claim the first process is taken for dead and a second one claims the package; then the first reports
   * a failure after all, and a third one claims the package although the second has not answered.
   */
  method LateResult(profile: Profile) returns (s: Schedule)
    ensures Only(s, Running, 3, HOUR, [Claim, Recovery, Claim, Answer(1), Claim])
  {
    s := FirstClaim(profile);
    RecoverOnly(s);
    ClaimOnly(s, HOUR, 1, 0, [Claim, Recovery]);
    AnswerLate(s);
    ClaimOnly(s, HOUR, 2, HOUR, [Claim, Recovery, Claim, Answer(1)]);
  }
}
