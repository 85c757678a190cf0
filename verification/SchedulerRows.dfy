/** The rows of one static-analysis profile, and what one synchronization makes of them. */
module SchedulerRows {
  import opened Wrappers

  datatype State = Eligible | Running | Completed | Failed | Unsupported | Unresolvable

  /** A package's fields after the scheduler has stripped them and lowered the registry's case. */
  datatype Package = Package(registry: string, identifier: string, version: string)

  datatype Profile = Profile(analysisType: string, analyzer: string, analyzerVersion: string, ruleset: string)

  datatype Run = Run(package: nat, status: string, profile: Profile, artifact: Option<string>)

  datatype Row = Row(
    state: State, code: Option<string>, message: Option<string>, run: Option<nat>, artifact: Option<string>,
    attempts: nat, lastAttempt: Option<int>, reused: bool, discovered: int)

  predicate Supported(registry: string) { registry == "npm" || registry == "pypi" }

  function Classify(p: Package): (State, Option<string>, Option<string>) {
    if !Supported(p.registry) then
      (Unsupported, Some("unsupported_registry"),
       Some("registry type " + (if p.registry == "" then "<empty>" else p.registry) + " is not supported"))
    else if p.identifier == "" then
      (Unresolvable, Some("missing_package_identifier"), Some("package identifier is missing"))
    else if p.version == "" then
      (Unresolvable, Some("missing_exact_version"), Some("exact package version is missing"))
    else (Eligible, None, None)
  }

  /** A completed run of the profile for an artifact: what verify_run asks of a result. */
  predicate Verified(runs: map<nat, Run>, profile: Profile, run: nat, artifact: string) {
    run in runs && runs[run].status == "completed" && runs[run].profile == profile && runs[run].artifact == Some(artifact)
  }

  predicate Compatible(runs: map<nat, Run>, profile: Profile, package: nat, run: nat) {
    run in runs && runs[run].package == package && runs[run].status == "completed" && runs[run].profile == profile && runs[run].artifact.Some?
  }

  predicate IsGreatest(s: set<nat>, g: nat) { g in s && forall x | x in s :: x <= g }

  lemma {:induction false} GreatestExists(s: set<nat>)
    requires s != {}
    ensures exists g :: IsGreatest(s, g)
  {
    var x :| x in s;
    var above := set y | y in s && y > x;
    if above == {} {
      forall y | y in s ensures y <= x { assert y > x ==> y in above; }
      assert IsGreatest(s, x);
    } else {
      GreatestExists(above);
      var g :| IsGreatest(above, g);
      forall y | y in s ensures y <= g { assert y > x ==> y in above; }
      assert IsGreatest(s, g);
    }
  }

  function Greatest(s: set<nat>): (g: nat)
    requires s != {}
    ensures IsGreatest(s, g)
  {
    GreatestExists(s);
    var g :| IsGreatest(s, g);
    g
  }

  /** The newest compatible run of a package. */
  function CompatibleRun(runs: map<nat, Run>, profile: Profile, package: nat): (r: Option<(nat, string)>)
    ensures r.Some? ==> Verified(runs, profile, r.value.0, r.value.1)
  {
    var ids := set id | id in runs && Compatible(runs, profile, package, id);
    if ids == {} then None else Some((Greatest(ids), runs[Greatest(ids)].artifact.value))
  }

  /** The run a completed row names, if it still verifies. */
  function ScheduledRun(runs: map<nat, Run>, profile: Profile, row: Option<Row>): (r: Option<(nat, string)>)
    ensures r.Some? ==> Verified(runs, profile, r.value.0, r.value.1)
  {
    if row.Some? && row.value.state == Completed && row.value.run.Some? && row.value.artifact.Some? &&
       Verified(runs, profile, row.value.run.value, row.value.artifact.value) then
      Some((row.value.run.value, row.value.artifact.value))
    else None
  }

  function KnownRun(runs: map<nat, Run>, profile: Profile, package: nat, row: Option<Row>): (r: Option<(nat, string)>)
    ensures r.Some? ==> Verified(runs, profile, r.value.0, r.value.1)
  {
    var compatible := CompatibleRun(runs, profile, package);
    if compatible.Some? then compatible else ScheduledRun(runs, profile, row)
  }

  /** The columns a synchronization decides. */
  datatype Decision = Decision(
    state: State, code: Option<string>, message: Option<string>, run: Option<nat>, artifact: Option<string>)

  function NonEmpty(text: Option<string>): Option<string> { if text == Some("") then None else text }

  function Decide(p: Package, existing: Option<Row>, known: Option<(nat, string)>): Decision {
    var (state, code, message) := Classify(p);
    if known.Some? then Decision(Completed, None, None, Some(known.value.0), Some(known.value.1))
    else if existing.Some? && state == Eligible && (existing.value.state == Failed || existing.value.state == Running) then
      Decision(existing.value.state, NonEmpty(existing.value.code), NonEmpty(existing.value.message),
               existing.value.run, existing.value.artifact)
    else Decision(state, code, message, None, None)
  }

  function Applied(d: Decision, existing: Option<Row>, now: int): Row {
    if existing.None? then Row(d.state, d.code, d.message, d.run, d.artifact, 0, None, false, now)
    else existing.value.(state := d.state, code := d.code, message := d.message, run := d.run, artifact := d.artifact)
  }

  /** One package's row after the loop of synchronize. */
  function SyncedRow(runs: map<nat, Run>, profile: Profile, id: nat, p: Package, existing: Option<Row>, now: int): Row {
    Applied(Decide(p, existing, KnownRun(runs, profile, id, existing)), existing, now)
  }

  const INTERRUPTED := "interrupted"
  const UNFINISHED := "previous scheduler process did not finish this package"

  predicate Stale(row: Row, cutoff: int) { row.state == Running && row.lastAttempt.Some? && row.lastAttempt.value <= cutoff }

  function Recovered(row: Row, cutoff: int): Row {
    if Stale(row, cutoff) then row.(state := Failed, code := Some(INTERRUPTED), message := Some(UNFINISHED)) else row
  }

  function RowAt(rows: map<nat, Row>, id: nat): Option<Row> { if id in rows then Some(rows[id]) else None }

  /** All rows after synchronize, from those before it: one for each package, and nothing else. */
  ghost predicate RowsSynced(
      packages: map<nat, Package>, runs: map<nat, Run>, profile: Profile, rows: map<nat, Row>, now: int, cutoff: int, after: map<nat, Row>)
  {
    && after.Keys == packages.Keys
    && forall id | id in packages :: after[id] == Recovered(SyncedRow(runs, profile, id, packages[id], RowAt(rows, id), now), cutoff)
  }

  /** A completed row that names a completed run of the profile with the same artifact. */
  predicate NamesRun(runs: map<nat, Run>, profile: Profile, row: Row) {
    row.run.Some? && row.artifact.Some? && Verified(runs, profile, row.run.value, row.artifact.value)
  }

  lemma SyncedRowFacts(runs: map<nat, Run>, profile: Profile, id: nat, p: Package, existing: Option<Row>, now: int, cutoff: int)
    ensures var r := Recovered(SyncedRow(runs, profile, id, p, existing, now), cutoff);
            && (r.state == Completed ==> NamesRun(runs, profile, r))
            && (existing.Some? ==> r.attempts == existing.value.attempts && r.lastAttempt == existing.value.lastAttempt)
            && (existing.None? ==> r.attempts == 0)
            && (r.state == Running ==> existing.Some? && existing.value.state == Running)
            && (existing.Some? && existing.value.state == Completed && NamesRun(runs, profile, existing.value) ==> r.state == Completed)
  {}

  /** What synchronizing makes of the state of an existing row, in all cases. */
  lemma SyncedState(runs: map<nat, Run>, profile: Profile, id: nat, p: Package, row: Row, now: int, cutoff: int)
    ensures var known := KnownRun(runs, profile, id, Some(row));
            var kept := Classify(p).0 == Eligible && (row.state == Running || row.state == Failed);
            Recovered(SyncedRow(runs, profile, id, p, Some(row), now), cutoff).state ==
              if known.Some? then Completed
              else if !kept then Classify(p).0
              else if Stale(row, cutoff) then Failed
              else row.state
  {}

  /** A running row of an analysable package is taken out of running by a known run or by its age, and by nothing else. */
  lemma ReleasedExactly(runs: map<nat, Run>, profile: Profile, id: nat, p: Package, row: Row, now: int, cutoff: int)
    requires row.state == Running && Classify(p).0 == Eligible
    ensures var after := Recovered(SyncedRow(runs, profile, id, p, Some(row), now), cutoff);
            var known := KnownRun(runs, profile, id, Some(row));
            && (after.state != Running <==> known.Some? || Stale(row, cutoff))
            && (after.state == Completed <==> known.Some?)
            && (after.state == Failed <==> known.None? && Stale(row, cutoff))
  {
    SyncedState(runs, profile, id, p, row, now, cutoff);
  }

  /** A recorded refusal lasts until the next synchronization only: the package is eligible again unless a run is known. */
  lemma RefusalForgotten(runs: map<nat, Run>, profile: Profile, id: nat, p: Package, row: Row, now: int, cutoff: int)
    requires (row.state == Unsupported || row.state == Unresolvable) && Classify(p).0 == Eligible
    ensures var after := Recovered(SyncedRow(runs, profile, id, p, Some(row), now), cutoff);
            && after.state == (if CompatibleRun(runs, profile, id).Some? then Completed else Eligible)
            && after.attempts == row.attempts
  {
    SyncedState(runs, profile, id, p, row, now, cutoff);
  }

  /** Synchronizing never demotes a completed row that names a matching run. */
  lemma NeverDemotes(
      packages: map<nat, Package>, runs: map<nat, Run>, profile: Profile, rows: map<nat, Row>, now: int, cutoff: int, after: map<nat, Row>,
      id: nat)
    requires RowsSynced(packages, runs, profile, rows, now, cutoff, after)
    requires id in packages && id in rows && rows[id].state == Completed && NamesRun(runs, profile, rows[id])
    ensures after[id].state == Completed && NamesRun(runs, profile, after[id])
  {
    SyncedRowFacts(runs, profile, id, packages[id], Some(rows[id]), now, cutoff);
  }

  lemma RowIdempotent(runs: map<nat, Run>, profile: Profile, id: nat, p: Package, existing: Option<Row>, now: int, cutoff: int)
    ensures var once := Recovered(SyncedRow(runs, profile, id, p, existing, now), cutoff);
            Recovered(SyncedRow(runs, profile, id, p, Some(once), now), cutoff) == once
  {}

  /** At a fixed time a second synchronization changes nothing. */
  lemma SyncIdempotent(
      packages: map<nat, Package>, runs: map<nat, Run>, profile: Profile, rows: map<nat, Row>, now: int, cutoff: int,
      once: map<nat, Row>, twice: map<nat, Row>)
    requires RowsSynced(packages, runs, profile, rows, now, cutoff, once)
    requires RowsSynced(packages, runs, profile, once, now, cutoff, twice)
    ensures twice == once
  {
    forall id | id in packages ensures twice[id] == once[id] {
      RowIdempotent(runs, profile, id, packages[id], RowAt(rows, id), now, cutoff);
    }
  }

  // The columns, one by one.

  /** A package is analysable exactly when its registry is one of two and it names a package and a version. */
  lemma ClassifyExactly(p: Package)
    ensures var named := p.identifier != "" && p.version != "";
            && (Classify(p) == (Eligible, None, None) <==> p.registry in {"npm", "pypi"} && named)
            && (Classify(p).0 == Eligible <==> p.registry in {"npm", "pypi"} && named)
    ensures p.registry !in {"", "npm", "pypi"} ==>
              Classify(p) == (Unsupported, Some("unsupported_registry"), Some("registry type " + p.registry + " is not supported"))
    ensures p.registry == "" ==> Classify(p).0 == Unsupported && Classify(p).1 == Some("unsupported_registry")
    ensures p.registry == "" ==> Classify(p).2 == Some("registry type " + "<empty>" + " is not supported")
    ensures p.registry in {"npm", "pypi"} && p.identifier == "" ==>
              Classify(p) == (Unresolvable, Some("missing_package_identifier"), Some("package identifier is missing"))
    ensures p.registry in {"npm", "pypi"} && p.identifier != "" && p.version == "" ==>
              Classify(p) == (Unresolvable, Some("missing_exact_version"), Some("exact package version is missing"))
  {}

  lemma VerifiedExactly(runs: map<nat, Run>, profile: Profile, run: nat, artifact: string)
    ensures Verified(runs, profile, run, artifact) <==>
            run in runs && runs[run] == Run(runs[run].package, "completed", profile, Some(artifact))
  {}

  /** The completed run of the package and the profile, with an artifact, behind which there is no other one. */
  ghost predicate NewestRun(runs: map<nat, Run>, profile: Profile, package: nat, run: nat, artifact: string) {
    && run in runs && runs[run] == Run(package, "completed", profile, Some(artifact))
    && forall later | later in runs && later > run && runs[later].artifact.Some? ::
         runs[later] != Run(package, "completed", profile, runs[later].artifact)
  }

  lemma CompatibleExactly(runs: map<nat, Run>, profile: Profile, package: nat, run: nat, artifact: string)
    ensures CompatibleRun(runs, profile, package) == Some((run, artifact)) <==> NewestRun(runs, profile, package, run, artifact)
  {
    var ids := set id | id in runs && Compatible(runs, profile, package, id);
    forall id | id in runs
      ensures id in ids <==> runs[id].artifact.Some? && runs[id] == Run(package, "completed", profile, runs[id].artifact)
    {}
    if NewestRun(runs, profile, package, run, artifact) {
      assert run in ids;
      assert Greatest(ids) in ids && run <= Greatest(ids);
    }
  }

  /** A known run is the newest compatible one; without one, it is the verified run that a completed row names. */
  lemma KnownExactly(runs: map<nat, Run>, profile: Profile, package: nat, row: Option<Row>, run: nat, artifact: string)
    ensures KnownRun(runs, profile, package, row) == Some((run, artifact)) <==>
            || NewestRun(runs, profile, package, run, artifact)
            || ((forall r: nat, a: string :: !NewestRun(runs, profile, package, r, a))
                && row.Some? && row.value.state == Completed && row.value.run == Some(run) && row.value.artifact == Some(artifact)
                && run in runs && runs[run] == Run(runs[run].package, "completed", profile, Some(artifact)))
  {
    var compatible := CompatibleRun(runs, profile, package);
    forall r: nat, a: string ensures compatible == Some((r, a)) <==> NewestRun(runs, profile, package, r, a) {
      CompatibleExactly(runs, profile, package, r, a);
    }
    if compatible.Some? { assert NewestRun(runs, profile, package, compatible.value.0, compatible.value.1); }
    VerifiedExactly(runs, profile, run, artifact);
  }

  predicate OldClaim(row: Row, cutoff: int) {
    match row.lastAttempt
    case None => false
    case Some(last) => row.state == Running && last <= cutoff
  }

  /** Every column of an existing row after a synchronization. */
  lemma SyncedColumns(runs: map<nat, Run>, profile: Profile, id: nat, p: Package, row: Row, now: int, cutoff: int)
    ensures var after := Recovered(SyncedRow(runs, profile, id, p, Some(row), now), cutoff);
            var known := KnownRun(runs, profile, id, Some(row));
            && after.attempts == row.attempts && after.lastAttempt == row.lastAttempt
            && after.reused == row.reused && after.discovered == row.discovered
            && (known.Some? ==> (after.state, after.code, after.message, after.run, after.artifact) ==
                                (Completed, None, None, Some(known.value.0), Some(known.value.1)))
            && (known.None? && Classify(p).0 == Eligible && row.state in {Failed, Running} ==>
                  && after.run == row.run && after.artifact == row.artifact
                  && (after.state, after.code, after.message) ==
                     if OldClaim(row, cutoff) then
                       (Failed, Some("interrupted"), Some("previous scheduler process did not finish this package"))
                     else (row.state, if row.code == Some("") then None else row.code, if row.message == Some("") then None else row.message))
            && (known.None? && !(Classify(p).0 == Eligible && row.state in {Failed, Running}) ==>
                  && (after.state, after.code, after.message) == Classify(p) && after.run == None && after.artifact == None)
  {}

  /** Every column of a new row. */
  lemma NewColumns(runs: map<nat, Run>, profile: Profile, id: nat, p: Package, now: int, cutoff: int)
    ensures var after := Recovered(SyncedRow(runs, profile, id, p, None, now), cutoff);
            var known := KnownRun(runs, profile, id, None);
            && after.attempts == 0 && after.lastAttempt == None && !after.reused && after.discovered == now
            && (known.Some? ==> (after.state, after.code, after.message, after.run, after.artifact) ==
                                (Completed, None, None, Some(known.value.0), Some(known.value.1)))
            && (known.None? ==> (after.state, after.code, after.message) == Classify(p) && after.run == None && after.artifact == None)
  {}

  // Claims.

  predicate Claimable(row: Row, maximumAttempts: nat, cutoff: int) {
    && (row.state == Eligible || row.state == Failed) && row.attempts < maximumAttempts
    && (row.lastAttempt.Some? ==> row.lastAttempt.value <= cutoff)
  }

  /** The order of candidates: newest discovery, then eligible before failed, fewest attempts, highest package id. */
  predicate Before(a: Row, aId: nat, b: Row, bId: nat) {
    || a.discovered > b.discovered
    || (a.discovered == b.discovered &&
        (|| (a.state == Eligible && b.state != Eligible)
         || ((a.state == Eligible <==> b.state == Eligible) &&
             (a.attempts < b.attempts || (a.attempts == b.attempts && aId >= bId)))))
  }

  function Claimed(row: Row, now: int): Row {
    row.(state := Running, attempts := row.attempts + 1, lastAttempt := Some(now), code := None, message := None)
  }

  predicate IsBest(rows: map<nat, Row>, ids: set<nat>, best: nat)
    requires ids <= rows.Keys
  {
    best in ids && forall id | id in ids :: Before(rows[best], best, rows[id], id)
  }

  /** The order is total, so some candidate comes first; being antisymmetric too, only one does. */
  lemma {:induction false} BestExists(rows: map<nat, Row>, ids: set<nat>)
    requires ids != {} && ids <= rows.Keys
    ensures exists best :: IsBest(rows, ids, best)
  {
    var x :| x in ids;
    var better := set y | y in ids && y != x && Before(rows[y], y, rows[x], x);
    if better == {} {
      forall y | y in ids ensures Before(rows[x], x, rows[y], y) {
        assert y != x && Before(rows[y], y, rows[x], x) ==> y in better;
      }
      assert IsBest(rows, ids, x);
    } else {
      BestExists(rows, better);
      var b :| IsBest(rows, better, b);
      forall y | y in ids ensures Before(rows[b], b, rows[y], y) {
        assert y != x && Before(rows[y], y, rows[x], x) ==> y in better;
      }
      assert IsBest(rows, ids, b);
    }
  }

  lemma BestIsUnique(rows: map<nat, Row>, ids: set<nat>, a: nat, b: nat)
    requires ids <= rows.Keys && IsBest(rows, ids, a) && IsBest(rows, ids, b)
    ensures a == b
  {
    assert Before(rows[a], a, rows[b], b) && Before(rows[b], b, rows[a], a);
  }

  /** A package waiting for analysis: eligible or failed, with attempts left, and its last attempt not after the cutoff. */
  predicate Waiting(row: Row, maximumAttempts: nat, cutoff: int) {
    && row.state in {Eligible, Failed} && row.attempts + 1 <= maximumAttempts
    && match row.lastAttempt case None => true case Some(last) => last <= cutoff
  }

  lemma ClaimableExactly(row: Row, maximumAttempts: nat, cutoff: int)
    ensures Claimable(row, maximumAttempts, cutoff) <==> Waiting(row, maximumAttempts, cutoff)
  {}

  /** The sort key of a candidate, each part ascending. */
  function Key(row: Row, id: nat): seq<int> {
    var rank: int := if row.state == Eligible then 0 else 1;
    var attempts: int := row.attempts;
    var last: int := 0 - id;
    [-row.discovered, rank, attempts, last]
  }

  /** The keys agree before some part, which is smaller in a, or everywhere. */
  predicate KeyOrder(a: seq<int>, b: seq<int>, k: nat)
    requires |a| == |b| == 4
  {
    k <= 4 && (forall i | 0 <= i < k :: a[i] == b[i]) && (k == 4 || a[k] < b[k])
  }

  ghost predicate NotBehind(a: Row, aId: nat, b: Row, bId: nat) { exists k: nat :: KeyOrder(Key(a, aId), Key(b, bId), k) }

  /** The order of candidates is the lexicographic order of their keys. */
  lemma BeforeExactly(a: Row, aId: nat, b: Row, bId: nat)
    ensures Before(a, aId, b, bId) <==> NotBehind(a, aId, b, bId)
  {
    var x, y := Key(a, aId), Key(b, bId);
    if Before(a, aId, b, bId) {
      var k: nat := if x[0] != y[0] then 0 else if x[1] != y[1] then 1 else if x[2] != y[2] then 2 else if x[3] != y[3] then 3 else 4;
      assert KeyOrder(x, y, k);
    }
    if k: nat :| KeyOrder(x, y, k) {
      assert k < 1 || x[0] == y[0];
      assert k < 2 || x[1] == y[1];
      assert k < 3 || x[2] == y[2];
      assert k < 4 || x[3] == y[3];
    }
  }

  /** The waiting package with the first key. */
  ghost predicate IsFirst(rows: map<nat, Row>, maximumAttempts: nat, cutoff: int, first: nat) {
    && first in rows && Waiting(rows[first], maximumAttempts, cutoff)
    && forall id | id in rows && Waiting(rows[id], maximumAttempts, cutoff) :: NotBehind(rows[first], first, rows[id], id)
  }

  lemma BestIsFirst(rows: map<nat, Row>, ids: set<nat>, maximumAttempts: nat, cutoff: int, best: nat)
    requires ids <= rows.Keys && (forall id | id in rows :: id in ids <==> Claimable(rows[id], maximumAttempts, cutoff))
    requires IsBest(rows, ids, best)
    ensures IsFirst(rows, maximumAttempts, cutoff, best)
  {
    ClaimableExactly(rows[best], maximumAttempts, cutoff);
    forall id | id in rows && Waiting(rows[id], maximumAttempts, cutoff) ensures NotBehind(rows[best], best, rows[id], id) {
      ClaimableExactly(rows[id], maximumAttempts, cutoff);
      BeforeExactly(rows[best], best, rows[id], id);
    }
  }
}
