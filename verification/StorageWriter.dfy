/** Transactions on the static-analysis database: recording runs, reviewing findings, backfilling and refreshing. */
module StorageWriter {
  import opened Wrappers
  import opened StorageRows
  import opened StorageSummaries
  import opened StorageDatabase

  const MAXIMUM_BATCH := 10_000

  lemma NothingGood(d: Detail)
    requires WellFormed(d)
    ensures Good(d, NOTHING) && MetadataAgree(d, NOTHING.summaries.Keys)
  {
    assert UsedKeys(d, {}) == {} && UsedRules(d, {}) == {};
    assert NOTHING.summaries.Keys == {};
  }

  lemma RunStep(d: Detail, m: ReadModel, id: nat, run: Run, e: Detail, n: ReadModel)
    requires Good(d, m) && id !in d.runs
    requires e == d.(runs := d.runs[id := run])
    requires n == m || n == m.(summaries := m.summaries[id := NewRow(run)])
    ensures Good(e, n) && id !in m.summaries && id in e.runs
    ensures n.summaries.Keys == m.summaries.Keys + (if n == m then {} else {id})
    ensures ExactRows(e, n.summaries) == ExactRows(d, m.summaries) + (if n == m then {} else {id})
  {
    var keys := m.summaries.Keys;
    assert id !in m.summaries;
    RowsWithRun(d, m.summaries, id, run);
    assert m.summaries[id := NewRow(run)].Keys == keys + {id};
    NewRunKeys(d, e, keys, m, id);
  }

  lemma NewRunKeys(d: Detail, e: Detail, keys: set<nat>, m: ReadModel, id: nat)
    requires WellFormed(d) && WellFormed(e) && id !in d.runs && e == d.(runs := e.runs) && keys == m.summaries.Keys
    requires forall k | k in d.runs :: k in e.runs && e.runs[k] == d.runs[k]
    requires DefinitionsOk(d, keys, m.definitions) && RulesOk(d, keys, m.rules)
    ensures DefinitionsOk(e, keys, m.definitions) && RulesOk(e, keys, m.rules)
    ensures DefinitionsOk(e, keys + {id}, m.definitions) && RulesOk(e, keys + {id}, m.rules)
  {
    RunKeys(d, e, keys, keys, m);
    RunKeys(d, e, keys, keys + {id}, m);
  }

  lemma FindingStep(d: Detail, m: ReadModel, f: Finding, e: Detail, n: ReadModel)
    requires Good(d, m) && f.run in ExactRows(d, m.summaries)
    requires KeyOf(d, f) in m.definitions ==> m.definitions[KeyOf(d, f)] == f.metadata
    requires e == d.(findings := d.findings + [f])
    requires n.summaries == m.summaries[f.run := m.summaries[f.run].(findings := CountFinding(m.summaries[f.run].findings, f))]
    requires n.definitions == m.definitions[KeyOf(d, f) := f.metadata]
    requires n.rules == Bumped(m.rules, (f.run, KeyOf(d, f)))
    ensures Good(e, n) && n.summaries.Keys == m.summaries.Keys && ExactRows(e, n.summaries) == ExactRows(d, m.summaries)
  {
    var keys := m.summaries.Keys;
    assert n.summaries.Keys == keys;
    RowsWithFinding(d, m.summaries, f);
    DefinitionsWithFinding(d, keys, m.definitions, f);
    RulesAfterFinding(d, keys, m.rules, f);
  }

  lemma StillWellFormed(d: Detail, f: Finding)
    requires WellFormed(d) && f.run in d.runs
    ensures WellFormed(d.(findings := d.findings + [f]))
  {}

  lemma RowStep(d: Detail, m: ReadModel, id: nat, e: Detail, n: ReadModel)
    requires Good(d, m) && WellFormed(e) && e.runs == d.runs && e.findings == d.findings && id in d.runs
    requires forall k | k in d.runs && k != id :: Recount(e, k) == Recount(d, k)
    requires n == m || n == m.(summaries := m.summaries[id := Recount(e, id)])
    requires if n == m then id !in m.summaries else id in ExactRows(d, m.summaries)
    ensures Good(e, n) && n.summaries.Keys == m.summaries.Keys && ExactRows(e, n.summaries) == ExactRows(d, m.summaries)
  {
    var keys := m.summaries.Keys;
    assert n.summaries.Keys == keys;
    OtherTables(d, e, keys, m);
    if n != m { RowsAfter(d, e, m.summaries, id, Recount(e, id)); }
  }

  lemma FileRecount(d: Detail, f: FileRow)
    ensures var e := d.(files := d.files + [f]);
            && (forall k | k in d.runs && k != f.run :: Recount(e, k) == Recount(d, k))
            && (f.run in d.runs ==> Recount(e, f.run) == Recount(d, f.run).(files := CountFile(Recount(d, f.run).files, f)))
  {
    forall k | k in d.runs { CountFileIsRecount(d.files, f, k); }
  }

  lemma DependencyRecount(d: Detail, run: nat)
    ensures var e := d.(dependencies := d.dependencies + [run]);
            && (forall k | k in d.runs && k != run :: Recount(e, k) == Recount(d, k))
            && (run in d.runs ==> Recount(e, run) == Recount(d, run).(dependencies := Recount(d, run).dependencies + 1))
  {
    forall k | k in d.runs { CountRunIsRecount(d.dependencies, run, k); }
  }

  /** The detail rows after a whole run is recorded. */
  function Recorded(d: Detail, id: nat, run: Run, findings: seq<Reported>, files: seq<FileRow>, dependencies: nat): Detail {
    Detail(d.runs[id := run], d.findings + AllInRun(findings, id), d.files + FilesInRun(files, id),
           d.dependencies + seq(dependencies, _ => id))
  }

  function WithFindings(d: Detail, id: nat, findings: seq<Reported>): Detail {
    d.(findings := d.findings + AllInRun(findings, id))
  }

  function Repeat(n: nat, id: nat): seq<nat> { seq(n, _ => id) }

  lemma Associate<T>(a: seq<T>, b: seq<T>, c: seq<T>)
    ensures a + b + c == a + (b + c)
  {}

  /** Would the metadata agree once the run and its findings are in? */
  ghost predicate AgreesRecorded(d: Detail, id: nat, run: Run, findings: seq<Reported>, keys: set<nat>)
    requires WellFormed(d) && id !in d.runs
  {
    StaysWellFormed(d.(runs := d.runs[id := run]), id, findings);
    MetadataAgree(WithFindings(d.(runs := d.runs[id := run]), id, findings), keys)
  }

  lemma StaysWellFormed(d: Detail, id: nat, findings: seq<Reported>)
    requires WellFormed(d) && id in d.runs
    ensures WellFormed(WithFindings(d, id, findings))
  {}

  lemma OneMoreFinding(d: Detail, id: nat, findings: seq<Reported>, i: nat)
    requires i < |findings|
    ensures WithFindings(d, id, findings[..i + 1]).findings == WithFindings(d, id, findings[..i]).findings + [InRun(findings[i], id)]
  {
    assert AllInRun(findings[..i + 1], id) == AllInRun(findings[..i], id) + [InRun(findings[i], id)];
  }

  lemma PrefixDisagrees(d: Detail, id: nat, findings: seq<Reported>, n: nat, keys: set<nat>)
    requires WellFormed(d) && id in d.runs && n <= |findings|
    requires WellFormed(WithFindings(d, id, findings[..n])) && !MetadataAgree(WithFindings(d, id, findings[..n]), keys)
    ensures WellFormed(WithFindings(d, id, findings)) && !MetadataAgree(WithFindings(d, id, findings), keys)
  {
    StaysWellFormed(d, id, findings);
    var part, whole := WithFindings(d, id, findings[..n]), WithFindings(d, id, findings);
    assert AllInRun(findings[..n], id) == AllInRun(findings, id)[..n];
    assert part.findings <= whole.findings;
    if MetadataAgree(whole, keys) { AgreeMonotone(part, whole, keys, keys); }
  }

  /** What a review answers before it changes a row. */
  function Refused(d: Detail, finding: int, expected: Disposition, disposition: Disposition, reviewerOk: bool): (r: Option<ReviewResult>)
    ensures r.None? ==> 1 <= finding <= |d.findings| && disposition != Unreviewed
    ensures r.Some? ==> r.value != Reviewed && r.value != CheckFailed
  {
    if finding <= 0 || disposition == Unreviewed || !reviewerOk then Some(InvalidArguments)
    else if finding > |d.findings| then Some(NotFound)
    else if d.findings[finding - 1].disposition != expected || expected == disposition then Some(Conflict)
    else None
  }

  /** The CHECK that fails: the column a review of an urgent finding decrements is already zero. */
  predicate Stuck(d: Detail, summaries: map<nat, Summary>, i: nat)
    requires i < |d.findings|
  {
    var f := d.findings[i];
    Urgent(f) && f.run in summaries && UrgentColumn(summaries[f.run].findings, f.metadata.severity) == 0
  }

  function UrgentColumn(t: FindingTotals, s: Severity): int {
    if s == High then t.unreviewedHigh else t.unreviewedCritical
  }

  /** On a good row that column is zero only where the row is as version 1 left it. */
  lemma StuckRows(d: Detail, summaries: map<nat, Summary>, i: nat)
    requires RowsOk(d, summaries) && i < |d.findings|
    ensures var f := d.findings[i];
            f.run in summaries ==> (Stuck(d, summaries, i) <==> Urgent(f) && summaries[f.run] != Recount(d, f.run))
  {
    var f := d.findings[i];
    if Urgent(f) { CountPositive(d.findings, i, f.run, OfBoth(Unreviewed, f.metadata.severity)); }
  }

  function Answer(
      d: Detail, summaries: map<nat, Summary>, finding: int, expected: Disposition, disposition: Disposition, reviewerOk: bool)
    : ReviewResult
  {
    var refused := Refused(d, finding, expected, disposition, reviewerOk);
    if refused.Some? then refused.value else if Stuck(d, summaries, finding - 1) then CheckFailed else Reviewed
  }

  predicate Found(r: ReviewResult) { r != InvalidArguments && r != NotFound }

  /** One finding has the new disposition; everything else is as before. */
  predicate OnlyReviewed(before: Detail, after: Detail, i: nat, n: Disposition)
    requires i < |before.findings|
  {
    && after.runs == before.runs && after.files == before.files && after.dependencies == before.dependencies
    && |after.findings| == |before.findings|
    && after.findings[i] == before.findings[i].(disposition := n)
    && forall k | 0 <= k < |before.findings| && k != i :: after.findings[k] == before.findings[k]
  }

  lemma ReviewStep(d: Detail, m: ReadModel, i: nat, n: Disposition, e: Detail, after: ReadModel)
    requires Good(d, m) && i < |d.findings| && n != Unreviewed && e == AfterReview(d, i, n)
    requires var f := d.findings[i];
             if f.run in m.summaries then
               var row := Retotalled(m.summaries[f.run], f, n);
               NonNegative(row.findings) && after == m.(summaries := m.summaries[f.run := row])
             else after == m
    ensures Good(e, after) && after.summaries.Keys == m.summaries.Keys
    ensures ExactRows(e, after.summaries) == ExactRows(d, m.summaries)
  {
    var keys := m.summaries.Keys;
    ReviewKeeps(d, m, keys, i, n);
    assert after.summaries.Keys == keys;
    ReviewSummaries(d, m.summaries, i, n, after.summaries);
  }

  lemma ReviewSummaries(d: Detail, summaries: map<nat, Summary>, i: nat, n: Disposition, after: map<nat, Summary>)
    requires RowsOk(d, summaries) && i < |d.findings| && n != Unreviewed
    requires var f := d.findings[i];
             if f.run in summaries then
               var row := Retotalled(summaries[f.run], f, n);
               NonNegative(row.findings) && after == summaries[f.run := row]
             else after == summaries
    ensures RowsOk(AfterReview(d, i, n), after)
    ensures ExactRows(AfterReview(d, i, n), after) == ExactRows(d, summaries)
  {
    var f := d.findings[i];
    var e := AfterReview(d, i, n);
    ReviewOthers(d, i, n);
    if f.run in summaries {
      ReviewedRow(d, summaries[f.run], i, n);
      ReviewedRows(d, e, summaries, f.run, after[f.run]);
    } else {
      RowsSame(d, e, summaries);
    }
  }

  /** The trigger's CHECK constraints fail exactly where that column is zero. */
  lemma CheckHolds(d: Detail, summaries: map<nat, Summary>, i: nat, n: Disposition)
    requires RowsOk(d, summaries) && i < |d.findings| && n != Unreviewed
    ensures var f := d.findings[i];
            f.run in summaries ==>
              (NonNegative(Retotalled(summaries[f.run], f, n).findings) <==> !Stuck(d, summaries, i))
  {
    StuckRows(d, summaries, i);
    if d.findings[i].run in summaries { ReviewRow(d, summaries[d.findings[i].run], i, n); }
  }

  lemma ReviewedRows(d: Detail, e: Detail, summaries: map<nat, Summary>, id: nat, row: Summary)
    requires RowsOk(d, summaries) && e.runs == d.runs && id in summaries
    requires forall k | k in d.runs && k != id :: Recount(e, k) == Recount(d, k)
    requires row == Recount(e, id) || row == Zeroed(Recount(e, id))
    requires row == Recount(e, id) <==> summaries[id] == Recount(d, id)
    ensures RowsOk(e, summaries[id := row]) && ExactRows(e, summaries[id := row]) == ExactRows(d, summaries)
  {}

  lemma RowsSame(d: Detail, e: Detail, summaries: map<nat, Summary>)
    requires RowsOk(d, summaries) && e.runs == d.runs
    requires forall k | k in summaries :: k in d.runs && Recount(e, k) == Recount(d, k)
    ensures RowsOk(e, summaries) && ExactRows(e, summaries) == ExactRows(d, summaries)
  {}

  lemma RefreshRow(d: Detail, id: nat, row: Summary)
    requires id in d.runs && (row == Recount(d, id) || row == Zeroed(Recount(d, id)))
    ensures Refreshed(d, id, row) == Recount(d, id)
  {
    RefreshRepairs(d, id, row);
  }

  // A version 1 database with one run and one unreviewed finding of high severity, which cannot be reviewed.

  const URGENT := Finding(1, "rule", Metadata("network", High, "title", "explanation"), Unreviewed)
  const ONE_URGENT := Detail(map[1 := Run("artifact", "analyzer", "1", "ruleset", "completed")], [URGENT], [], [])
  const URGENT_KEY := Key("ruleset", "rule")
  const VERSION_1 :=
    ReadModel(map[1 := Zeroed(Recount(ONE_URGENT, 1))], map[URGENT_KEY := URGENT.metadata], map[(1, URGENT_KEY) := 1])

  lemma OneUrgentKeys()
    ensures WellFormed(ONE_URGENT) && KeyOf(ONE_URGENT, URGENT) == URGENT_KEY
    ensures UsedKeys(ONE_URGENT, {1}) == {URGENT_KEY} && UsedRules(ONE_URGENT, {1}) == {(1, URGENT_KEY)}
  {
    assert Row(ONE_URGENT, {1}, 0) && forall i | Row(ONE_URGENT, {1}, i) :: i == 0;
  }

  lemma OneUrgentDefinitions()
    ensures WellFormed(ONE_URGENT) && DefinitionsOk(ONE_URGENT, {1}, map[URGENT_KEY := URGENT.metadata])
  {
    OneUrgentKeys();
    assert forall i | Row(ONE_URGENT, {1}, i) :: i == 0;
  }

  lemma OneUrgentRules()
    ensures WellFormed(ONE_URGENT) && RulesOk(ONE_URGENT, {1}, map[(1, URGENT_KEY) := 1])
  {
    OneUrgentKeys();
    CountAppend([], URGENT, 1, OfRule("rule"));
    assert [] + [URGENT] == ONE_URGENT.findings;
  }

  lemma OneUrgentGood()
    ensures Good(ONE_URGENT, VERSION_1)
    ensures forall id | id in VERSION_1.summaries :: VERSION_1.summaries[id] == Zeroed(Recount(ONE_URGENT, id))
  {
    OneUrgentDefinitions();
    OneUrgentRules();
    assert VERSION_1.summaries.Keys == {1};
  }

  /** Before the refresh the review fails, after it the same review succeeds. */
  lemma ReviewFailsUntilRefreshed()
    ensures Good(ONE_URGENT, VERSION_1)
    ensures forall id | id in VERSION_1.summaries :: VERSION_1.summaries[id] == Zeroed(Recount(ONE_URGENT, id))
    ensures Answer(ONE_URGENT, VERSION_1.summaries, 1, Unreviewed, Expected, true) == CheckFailed
    ensures var refreshed := map[1 := Refreshed(ONE_URGENT, 1, VERSION_1.summaries[1])];
            Answer(ONE_URGENT, refreshed, 1, Unreviewed, Expected, true) == Reviewed
  {
    OneUrgentGood();
    RefreshRow(ONE_URGENT, 1, VERSION_1.summaries[1]);
    CountPositive(ONE_URGENT.findings, 0, 1, OfBoth(Unreviewed, High));
  }

  /** Some finding of the run has this key and metadata. */
  ghost predicate Represented(d: Detail, id: nat, k: Key, metadata: Metadata)
    requires WellFormed(d)
  {
    exists j :: Row(d, {id}, j) && KeyOf(d, d.findings[j]) == k && d.findings[j].metadata == metadata
  }

  lemma RuleKeys(d: Detail, id: nat, rules: set<string>)
    requires WellFormed(d)
    requires rules == set i | 0 <= i < |d.findings| && d.findings[i].run == id :: d.findings[i].rule
    ensures rules != {} ==> id in d.runs
    ensures forall k :: k in UsedKeys(d, {id}) <==> id in d.runs && k.ruleset == d.runs[id].ruleset && k.rule in rules
  {
    forall k: Key | id in d.runs && k.ruleset == d.runs[id].ruleset && k.rule in rules ensures k in UsedKeys(d, {id}) {
      var i :| 0 <= i < |d.findings| && d.findings[i].run == id && d.findings[i].rule == k.rule;
      assert KeyOf(d, d.findings[i]) == k;
    }
  }

  /** The definitions there were, and one for each of these rules of the run. */
  ghost predicate Defining(d: Detail, id: nat, before: map<Key, Metadata>, rules: set<string>, definitions: map<Key, Metadata>)
    requires WellFormed(d)
  {
    && (forall k | k in before :: k in definitions && definitions[k] == before[k])
    && (forall k | k in definitions && k !in before :: k in UsedKeys(d, {id}) && Represented(d, id, k, definitions[k]))
    && (forall rule | rule in rules :: id in d.runs && Key(d.runs[id].ruleset, rule) in definitions)
  }

  lemma OneMoreRule(d: Detail, id: nat, before: map<Key, Metadata>, rules: set<string>, definitions: map<Key, Metadata>, f: Finding)
    requires WellFormed(d) && Defining(d, id, before, rules, definitions)
    requires f.run == id && id in d.runs && KeyOf(d, f) in UsedKeys(d, {id}) && Represented(d, id, KeyOf(d, f), f.metadata)
    ensures var k := KeyOf(d, f);
            Defining(d, id, before, rules + {f.rule}, if k in definitions then definitions else definitions[k := f.metadata])
  {}

  lemma AllDefined(d: Detail, id: nat, before: map<Key, Metadata>, rules: set<string>, definitions: map<Key, Metadata>)
    requires WellFormed(d) && Defining(d, id, before, rules, definitions)
    requires forall k :: k in UsedKeys(d, {id}) <==> id in d.runs && k.ruleset == d.runs[id].ruleset && k.rule in rules
    ensures definitions.Keys == before.Keys + UsedKeys(d, {id})
  {
    forall k | k in UsedKeys(d, {id}) ensures k in definitions { assert k == Key(d.runs[id].ruleset, k.rule); }
  }

  predicate Differs(d: Detail, definitions: map<Key, Metadata>, i: int)
    requires 0 <= i < |d.findings| && d.findings[i].run in d.runs && KeyOf(d, d.findings[i]) in definitions
  {
    definitions[KeyOf(d, d.findings[i])] != d.findings[i].metadata
  }

  /** The rule rows of a run without a summary are all new: the INSERT violates no primary key. */
  lemma NoCollision(d: Detail, m: ReadModel, id: nat, rows: map<(nat, Key), nat>)
    requires Good(d, m) && id !in m.summaries && RulesOk(d, {id}, rows)
    ensures rows.Keys !! m.rules.Keys
  {
    NoRuleRows(d, m, id);
    assert forall p | p in UsedRules(d, {id}) :: p.0 == id;
  }

  lemma BackfillStep(d: Detail, m: ReadModel, id: nat, definitions: map<Key, Metadata>, rows: map<(nat, Key), nat>, n: ReadModel)
    requires Good(d, m) && id in d.runs && id !in m.summaries
    requires definitions.Keys == m.definitions.Keys + UsedKeys(d, {id})
    requires forall k | k in m.definitions :: definitions[k] == m.definitions[k]
    requires forall i | Row(d, {id}, i) :: !Differs(d, definitions, i)
    requires RulesOk(d, {id}, rows)
    requires n == ReadModel(m.summaries[id := Recount(d, id)], definitions, m.rules + rows)
    ensures Good(d, n) && n.summaries.Keys == m.summaries.Keys + {id} && MetadataAgree(d, m.summaries.Keys + {id})
    ensures ExactRows(d, n.summaries) == ExactRows(d, m.summaries) + {id}
  {
    var keys := m.summaries.Keys;
    assert n.summaries.Keys == keys + {id};
    RowsAdd(d, m.summaries, id, Recount(d, id));
    SummaryDefinitions(d, keys, m.definitions, id, definitions);
    SummaryRules(d, keys, m.rules, id, rows);
    DefinitionsAgree(d, keys + {id}, definitions);
  }

  lemma DefinitionsAgree(d: Detail, keys: set<nat>, definitions: map<Key, Metadata>)
    requires WellFormed(d) && DefinitionsOk(d, keys, definitions)
    ensures MetadataAgree(d, keys)
  {}

  ghost function Elements(rows: seq<nat>): set<nat> { set i | 0 <= i < |rows| :: rows[i] }

  /** The first n runs of a set in ascending order, or all of them. */
  ghost predicate IsBatch(missing: set<nat>, n: nat, rows: seq<nat>) {
    && Elements(rows) <= missing && |rows| <= n
    && (forall i, j | 0 <= i < j < |rows| :: rows[i] < rows[j])
    && (forall i, b | 0 <= i < |rows| && b in missing - Elements(rows) :: rows[i] < b)
    && (|rows| == n || Elements(rows) == missing)
  }

  predicate IsLeast(s: set<nat>, least: nat) { least in s && forall b | b in s :: least <= b }

  lemma {:induction false} LeastExists(s: set<nat>, x: nat)
    requires x in s
    ensures exists least :: IsLeast(s, least)
    decreases x
  {
    if y :| y in s && y < x {
      LeastExists(s, y);
    } else {
      assert IsLeast(s, x);
    }
  }

  /** Ids taken so far, in ascending order and all below those left. */
  ghost predicate Taken(ids: set<nat>, n: nat, rows: seq<nat>, left: set<nat>) {
    && left == ids - Elements(rows) && Elements(rows) <= ids && |rows| <= n
    && (forall i, j | 0 <= i < j < |rows| :: rows[i] < rows[j])
    && (forall i, b | 0 <= i < |rows| && b in left :: rows[i] < b)
  }

  lemma TakeLeast(ids: set<nat>, n: nat, rows: seq<nat>, left: set<nat>, least: nat)
    requires Taken(ids, n, rows, left) && |rows| < n && IsLeast(left, least)
    ensures Taken(ids, n, rows + [least], left - {least})
  {
    ElementsAppend(rows, least);
  }

  lemma UnionStep(a: set<nat>, b: set<nat>, x: nat)
    ensures a + b + {x} == a + (b + {x})
  {}

  /** ORDER BY id LIMIT n. */
  method Smallest(ids: set<nat>, n: nat) returns (rows: seq<nat>)
    ensures IsBatch(ids, n, rows)
  {
    rows := [];
    var left := ids;
    while |rows| < n && left != {}
      invariant Taken(ids, n, rows, left)
      decreases |left|
    {
      ghost var some :| some in left;
      LeastExists(left, some);
      var least :| IsLeast(left, least);
      TakeLeast(ids, n, rows, left, least);
      rows := rows + [least];
      left := left - {least};
    }
  }

  lemma ElementsAppend(rows: seq<nat>, more: nat)
    ensures Elements(rows + [more]) == Elements(rows) + {more}
  {
    assert (rows + [more])[|rows|] == more;
    assert forall i | 0 <= i < |rows| :: (rows + [more])[i] == rows[i];
  }

  lemma NextRow(missing: set<nat>, n: nat, rows: seq<nat>, at: nat)
    requires IsBatch(missing, n, rows) && at < |rows|
    ensures rows[at] in missing && rows[at] !in Elements(rows[..at])
    ensures Elements(rows[..at + 1]) == Elements(rows[..at]) + {rows[at]}
  {
    assert rows[at] in Elements(rows);
    assert forall i | 0 <= i < at :: rows[..at][i] == rows[i];
    assert rows[..at + 1] == rows[..at] + [rows[at]];
  }

  lemma WholeBatchDisagrees(d: Detail, keys: set<nat>, rows: seq<nat>, at: nat)
    requires WellFormed(d) && at < |rows|
    requires !MetadataAgree(d, keys + Elements(rows[..at]) + {rows[at]})
    ensures !MetadataAgree(d, keys + Elements(rows))
  {
    var part := keys + Elements(rows[..at]) + {rows[at]};
    assert forall i | 0 <= i < at :: rows[..at][i] == rows[i];
    assert part <= keys + Elements(rows);
    if MetadataAgree(d, keys + Elements(rows)) { AgreeMonotone(d, d, part, keys + Elements(rows)); }
  }

  class Database {
    var detail: Detail
    var model: ReadModel
    var installed: bool
    var reviews: seq<Review>

    ghost predicate Valid()
      reads this`detail, this`model, this`installed
    {
      Good(detail, model) && (!installed ==> model == NOTHING)
    }

    ghost predicate AllExact()
      reads this`detail, this`model
    {
      Exact(detail, model.summaries)
    }

    ghost function ExactRuns(): set<nat>
      reads this`detail, this`model
    {
      ExactRows(detail, model.summaries)
    }

    /** A new database, before the storage tool has seen it. */
    constructor ()
      ensures Valid() && AllExact() && !installed && detail == Detail(map[], [], [], []) && reviews == []
    {
      detail := Detail(map[], [], [], []);
      model := NOTHING;
      installed := false;
      reviews := [];
      new;
      NothingGood(detail);
    }

    /** A database from schema version 1: the summaries are right but for the two columns just added, still zero. */
    constructor FromVersion1(detail: Detail, model: ReadModel)
      requires Good(detail, model)
      requires forall id | id in model.summaries :: model.summaries[id] == Zeroed(Recount(detail, id))
      ensures Valid() && this.detail == detail && this.model == model && installed && reviews == []
    {
      this.detail := detail;
      this.model := model;
      installed := true;
      reviews := [];
    }

    method Install()
      requires Valid()
      modifies this`installed
      ensures Valid() && installed
    {
      installed := true;
    }

    // The insert triggers.

    method InsertRun(id: nat, run: Run)
      requires Valid() && id !in detail.runs
      modifies this`detail, this`model
      ensures Valid() && detail == old(detail).(runs := old(detail).runs[id := run])
      ensures model.summaries.Keys == old(model.summaries.Keys) + (if installed then {id} else {})
      ensures ExactRuns() == old(ExactRuns()) + (if installed then {id} else {})
    {
      ghost var d, m := detail, model;
      detail := detail.(runs := detail.runs[id := run]);
      if installed { model := model.(summaries := model.summaries[id := NewRow(run)]); }
      assert installed ==> id in model.summaries;
      RunStep(d, m, id, run, detail, model);
    }

    /** Insert or ignore the rule's definition; a false result means it differs from the finding's metadata. */
    method DefineRule(f: Finding, ghost d: Detail) returns (ok: bool)
      requires WellFormed(d) && f.run in d.runs && f.run in model.summaries
      requires DefinitionsOk(d, model.summaries.Keys, model.definitions)
      requires detail == d.(findings := d.findings + [f]) && WellFormed(detail)
      modifies this`model
      ensures ok <==> MetadataAgree(detail, old(model.summaries.Keys))
      ensures ok ==> model == old(model).(definitions := old(model).definitions[KeyOf(d, f) := f.metadata])
      ensures ok ==> KeyOf(d, f) in old(model).definitions ==> old(model).definitions[KeyOf(d, f)] == f.metadata
    {
      ghost var m := model;
      var k := KeyOf(detail, f);
      DefinitionsAfterFinding(d, m.summaries.Keys, m.definitions, f);
      if k !in model.definitions { model := model.(definitions := model.definitions[k := f.metadata]); }
      ok := model.definitions[k] == f.metadata;
      if ok { assert model.definitions == m.definitions[k := f.metadata]; }
    }

    /** analysis_v2_findings_insert; a false result aborts the statement. */
    method FindingTrigger(f: Finding, ghost d: Detail) returns (ok: bool)
      requires Good(d, model) && f.run in ExactRows(d, model.summaries)
      requires detail == d.(findings := d.findings + [f]) && WellFormed(detail)
      modifies this`model
      ensures ok <==> MetadataAgree(detail, old(model.summaries.Keys))
      ensures ok ==> Good(detail, model) && model.summaries.Keys == old(model.summaries.Keys)
      ensures ok ==> ExactRuns() == ExactRows(d, old(model.summaries))
    {
      ghost var m := model;
      ok := DefineRule(f, d);
      if ok {
        model := model.(rules := Bumped(model.rules, (f.run, KeyOf(detail, f))));
        var row := model.summaries[f.run];
        model := model.(summaries := model.summaries[f.run := row.(findings := CountFinding(row.findings, f))]);
        FindingStep(d, m, f, detail, model);
      }
    }

    method InsertFinding(f: Finding) returns (ok: bool)
      requires Valid() && f.run in detail.runs && (installed ==> f.run in ExactRuns())
      modifies this`detail, this`model
      ensures detail == old(detail).(findings := old(detail).findings + [f]) && WellFormed(detail)
      ensures ok <==> MetadataAgree(detail, old(model.summaries.Keys))
      ensures ok ==> Valid() && model.summaries.Keys == old(model.summaries.Keys) && ExactRuns() == old(ExactRuns())
    {
      ghost var d := detail;
      detail := detail.(findings := detail.findings + [f]);
      StillWellFormed(d, f);
      if installed {
        ok := FindingTrigger(f, d);
      } else {
        NothingGood(detail);
        ok := true;
      }
    }

    method InsertFile(f: FileRow)
      requires Valid() && f.run in detail.runs && (installed ==> f.run in ExactRuns())
      modifies this`detail, this`model
      ensures Valid() && detail == old(detail).(files := old(detail).files + [f])
      ensures model.summaries.Keys == old(model.summaries.Keys) && ExactRuns() == old(ExactRuns())
    {
      ghost var d, m := detail, model;
      FileRecount(detail, f);
      detail := detail.(files := detail.files + [f]);
      if installed {
        var row := model.summaries[f.run];
        model := model.(summaries := model.summaries[f.run := row.(files := CountFile(row.files, f))]);
        assert CountFile(row.files, f).all == row.files.all + 1;
      }
      assert WellFormed(detail);
      RowStep(d, m, f.run, detail, model);
    }

    method InsertDependency(run: nat)
      requires Valid() && run in detail.runs && (installed ==> run in ExactRuns())
      modifies this`detail, this`model
      ensures Valid() && detail == old(detail).(dependencies := old(detail).dependencies + [run])
      ensures model.summaries.Keys == old(model.summaries.Keys) && ExactRuns() == old(ExactRuns())
    {
      ghost var d, m := detail, model;
      DependencyRecount(detail, run);
      detail := detail.(dependencies := detail.dependencies + [run]);
      if installed {
        var row := model.summaries[run];
        model := model.(summaries := model.summaries[run := row.(dependencies := row.dependencies + 1)]);
        assert model.summaries[run].dependencies == m.summaries[run].dependencies + 1;
      }
      assert WellFormed(detail);
      RowStep(d, m, run, detail, model);
    }

    // One run is recorded in one transaction.

    method AddFindings(id: nat, findings: seq<Reported>) returns (ok: bool)
      requires Valid() && id in detail.runs && (installed ==> id in ExactRuns())
      modifies this`detail, this`model
      ensures WellFormed(WithFindings(old(detail), id, findings))
      ensures ok <==> MetadataAgree(WithFindings(old(detail), id, findings), old(model.summaries.Keys))
      ensures ok ==> Valid() && model.summaries.Keys == old(model.summaries.Keys) && ExactRuns() == old(ExactRuns())
      ensures ok ==> detail == WithFindings(old(detail), id, findings)
    {
      ghost var d, keys := detail, model.summaries.Keys;
      StaysWellFormed(d, id, findings);
      assert detail == WithFindings(d, id, findings[..0]);
      for i := 0 to |findings|
        invariant Valid() && model.summaries.Keys == keys && ExactRuns() == old(ExactRuns())
        invariant detail == WithFindings(d, id, findings[..i])
      {
        OneMoreFinding(d, id, findings, i);
        var inserted := InsertFinding(InRun(findings[i], id));
        if !inserted {
          PrefixDisagrees(d, id, findings, i + 1, keys);
          return false;
        }
      }
      assert findings[..|findings|] == findings;
      GoodAgree(detail, model);
      return true;
    }

    method AddFiles(id: nat, files: seq<FileRow>)
      requires Valid() && id in detail.runs && (installed ==> id in ExactRuns())
      modifies this`detail, this`model
      ensures Valid() && model.summaries.Keys == old(model.summaries.Keys) && ExactRuns() == old(ExactRuns())
      ensures detail == old(detail).(files := old(detail).files + FilesInRun(files, id))
    {
      ghost var d := detail;
      assert detail.files == d.files + FilesInRun(files[..0], id);
      for i := 0 to |files|
        invariant Valid() && model.summaries.Keys == old(model.summaries.Keys) && ExactRuns() == old(ExactRuns())
        invariant detail == d.(files := d.files + FilesInRun(files[..i], id))
      {
        InsertFile(files[i].(run := id));
        assert FilesInRun(files[..i + 1], id) == FilesInRun(files[..i], id) + [files[i].(run := id)];
        Associate(d.files, FilesInRun(files[..i], id), [files[i].(run := id)]);
      }
      assert files[..|files|] == files;
    }

    method AddDependencies(id: nat, count: nat)
      requires Valid() && id in detail.runs && (installed ==> id in ExactRuns())
      modifies this`detail, this`model
      ensures Valid() && model.summaries.Keys == old(model.summaries.Keys) && ExactRuns() == old(ExactRuns())
      ensures detail == old(detail).(dependencies := old(detail).dependencies + seq(count, _ => id))
    {
      ghost var d := detail;
      assert detail.dependencies == d.dependencies + Repeat(0, id);
      for i := 0 to count
        invariant Valid() && model.summaries.Keys == old(model.summaries.Keys) && ExactRuns() == old(ExactRuns())
        invariant detail == d.(dependencies := d.dependencies + Repeat(i, id))
      {
        InsertDependency(id);
        assert Repeat(i + 1, id) == Repeat(i, id) + [id];
        Associate(d.dependencies, Repeat(i, id), [id]);
      }
      assert seq(count, _ => id) == Repeat(count, id);
    }

    /** The recording transaction; otherFailure stands for any statement or check outside the model. */
    method RecordRun(id: nat, run: Run, findings: seq<Reported>, files: seq<FileRow>, dependencies: nat, otherFailure: bool)
      returns (ok: bool)
      requires Valid() && id !in detail.runs
      modifies this`detail, this`model
      ensures Valid()
      ensures ok <==> !otherFailure && AgreesRecorded(old(detail), id, run, findings, old(model.summaries.Keys) + Added(id))
      ensures ok ==> detail == Recorded(old(detail), id, run, findings, files, dependencies)
      ensures ok ==> model.summaries.Keys == old(model.summaries.Keys) + Added(id) && ExactRuns() == old(ExactRuns()) + Added(id)
      ensures !ok ==> detail == old(detail) && model == old(model)
    {
      var d, m := detail, model;
      InsertRun(id, run);
      var agreed := AddFindings(id, findings);
      if agreed {
        AddFiles(id, files);
        AddDependencies(id, dependencies);
      }
      ok := agreed && !otherFailure;
      if !ok { detail, model := d, m; }
    }

    ghost function Added(id: nat): set<nat>
      reads this
    {
      if installed then {id} else {}
    }

    // A finding is reviewed.

    /** review_finding with the disposition trigger, whose CHECK constraints abort the transaction. */
    method ReviewFinding(finding: int, expected: Disposition, disposition: Disposition, reviewerOk: bool) returns (r: ReviewResult)
      requires Valid()
      modifies this`detail, this`model, this`reviews
      ensures Valid()
      ensures r == Answer(old(detail), old(model).summaries, finding, expected, disposition, reviewerOk)
      ensures r == InvalidArguments <==> finding <= 0 || disposition == Unreviewed || !reviewerOk
      ensures r == NotFound <==> r != InvalidArguments && finding > |old(detail).findings|
      ensures r == Conflict <==> Found(r) && !(old(detail).findings[finding - 1].disposition == expected && expected != disposition)
      ensures Found(r) && r != Conflict ==> (r == CheckFailed <==> Stuck(old(detail), old(model).summaries, finding - 1))
      ensures r != Reviewed ==> detail == old(detail) && model == old(model) && reviews == old(reviews)
      ensures r == Reviewed ==>
                && old(detail).findings[finding - 1].disposition == expected && expected != disposition
                && OnlyReviewed(old(detail), detail, finding - 1, disposition)
                && reviews == old(reviews) + [Review(finding, expected, disposition)]
                && model.summaries.Keys == old(model.summaries.Keys) && ExactRuns() == old(ExactRuns())
    {
      var refused := Refused(detail, finding, expected, disposition, reviewerOk);
      if refused.Some? {
        r := refused.value;
      } else {
        var changed := UpdateDisposition(finding - 1, disposition);
        r := if changed then Reviewed else CheckFailed;
        if changed { reviews := reviews + [Review(finding, expected, disposition)]; }
      }
    }

    /** The UPDATE of one disposition with its trigger; a failed CHECK undoes both. */
    method UpdateDisposition(i: nat, disposition: Disposition) returns (ok: bool)
      requires Valid() && i < |detail.findings| && disposition != Unreviewed
      modifies this`detail, this`model
      ensures Valid()
      ensures ok <==> !Stuck(old(detail), old(model).summaries, i)
      ensures !ok ==> detail == old(detail) && model == old(model)
      ensures ok ==> detail == AfterReview(old(detail), i, disposition)
      ensures ok ==> model.summaries.Keys == old(model.summaries.Keys) && ExactRuns() == old(ExactRuns())
    {
      var f := detail.findings[i];
      ghost var d, m := detail, model;
      CheckHolds(d, m.summaries, i, disposition);
      var summaries := model.summaries;
      if f.run in summaries { summaries := summaries[f.run := Retotalled(summaries[f.run], f, disposition)]; }
      ok := f.run in summaries ==> NonNegative(summaries[f.run].findings);
      if ok {
        detail := detail.(findings := detail.findings[i := f.(disposition := disposition)]);
        model := model.(summaries := summaries);
        ReviewStep(d, m, i, disposition, detail, model);
      }
    }

    /** refresh_existing_summary_intersections: one UPDATE over all summaries. */
    method RefreshIntersections()
      requires Valid()
      modifies this`model
      ensures Valid() && AllExact()
      ensures model.summaries.Keys == old(model.summaries.Keys)
      ensures old(AllExact()) ==> model == old(model)
    {
      ghost var m := model;
      var refreshed := map id | id in model.summaries :: Refreshed(detail, id, model.summaries[id]);
      forall id | id in model.summaries
        ensures id in detail.runs && refreshed[id] == Recount(detail, id)
      {
        RefreshRow(detail, id, model.summaries[id]);
      }
      model := model.(summaries := refreshed);
      assert model.summaries.Keys == m.summaries.Keys;
      assert Exact(detail, m.summaries) ==> refreshed == m.summaries;
    }

    // Runs that were recorded before the triggers existed get their summaries.

    /** Some finding of a rule of a run. */
    method AnyFinding(id: nat, rule: string) returns (f: Finding)
      requires WellFormed(detail)
      requires exists i :: 0 <= i < |detail.findings| && detail.findings[i].run == id && detail.findings[i].rule == rule
      ensures f.run == id && id in detail.runs && f.rule == rule && KeyOf(detail, f) in UsedKeys(detail, {id})
      ensures Represented(detail, id, KeyOf(detail, f), f.metadata)
    {
      var i :| 0 <= i < |detail.findings| && detail.findings[i].run == id && detail.findings[i].rule == rule;
      assert Row(detail, {id}, i);
      f := detail.findings[i];
    }

    /** Insert or ignore a definition for each rule of a run, taken from any one of the rule's findings. */
    method DefinitionsFor(id: nat) returns (definitions: map<Key, Metadata>)
      requires WellFormed(detail)
      ensures definitions.Keys == model.definitions.Keys + UsedKeys(detail, {id})
      ensures forall k | k in model.definitions :: definitions[k] == model.definitions[k]
      ensures forall k | k in definitions && k !in model.definitions :: Represented(detail, id, k, definitions[k])
    {
      definitions := model.definitions;
      var todo := set i | 0 <= i < |detail.findings| && detail.findings[i].run == id :: detail.findings[i].rule;
      ghost var rules := todo;
      RuleKeys(detail, id, rules);
      while todo != {}
        invariant Defining(detail, id, model.definitions, rules - todo, definitions) && todo <= rules
        decreases todo
      {
        var rule :| rule in todo;
        var f := AnyFinding(id, rule);
        var k := KeyOf(detail, f);
        OneMoreRule(detail, id, model.definitions, rules - todo, definitions, f);
        if k !in definitions { definitions := definitions[k := f.metadata]; }
        assert rules - (todo - {rule}) == rules - todo + {rule};
        todo := todo - {rule};
      }
      AllDefined(detail, id, model.definitions, rules, definitions);
    }

    method FindMismatch(id: nat, definitions: map<Key, Metadata>) returns (found: bool)
      requires WellFormed(detail) && forall k | k in UsedKeys(detail, {id}) :: k in definitions
      ensures found <==> exists i :: Row(detail, {id}, i) && Differs(detail, definitions, i)
    {
      assert forall i | 0 <= i < |detail.findings| && detail.findings[i].run == id :: Row(detail, {id}, i);
      found := exists i :: 0 <= i < |detail.findings| && detail.findings[i].run == id && Differs(detail, definitions, i);
    }

    /** The GROUP BY over a run's findings. */
    method RuleRows(id: nat) returns (rows: map<(nat, Key), nat>)
      requires WellFormed(detail)
      ensures RulesOk(detail, {id}, rows)
    {
      rows := map i | 0 <= i < |detail.findings| && detail.findings[i].run == id ::
        (id, KeyOf(detail, detail.findings[i])) := Count(detail.findings, id, OfRule(detail.findings[i].rule));
    }

    method BackfillRun(id: nat) returns (ok: bool)
      requires Valid() && installed && id in detail.runs && id !in model.summaries
      modifies this`model
      ensures ok <==> MetadataAgree(detail, old(model.summaries.Keys) + {id})
      ensures ok ==> Valid() && model.summaries.Keys == old(model.summaries.Keys) + {id}
      ensures ok ==> ExactRuns() == old(ExactRuns()) + {id}
      ensures !ok ==> model == old(model)
    {
      ghost var m := model;
      var definitions := DefinitionsFor(id);
      var mismatch := FindMismatch(id, definitions);
      ok := !mismatch;
      if mismatch {
        ghost var i :| Row(detail, {id}, i) && Differs(detail, definitions, i);
        Disagreement(detail, m, id, definitions, i);
      } else {
        var rows := RuleRows(id);
        NoCollision(detail, m, id, rows);
        assert rows.Keys !! model.rules.Keys;
        model := ReadModel(model.summaries[id := Recount(detail, id)], definitions, model.rules + rows);
        BackfillStep(detail, m, id, definitions, rows, model);
      }
    }

    ghost function Missing(): set<nat>
      reads this`detail, this`model
    {
      detail.runs.Keys - model.summaries.Keys
    }

    /** backfill, rolled back as a whole when a run's metadata disagrees. */
    method Backfill(batch: int) returns (r: Outcome<nat, BackfillError>, rows: seq<nat>)
      requires Valid() && installed
      modifies this`model
      ensures Valid()
      ensures 1 <= batch <= MAXIMUM_BATCH ==> IsBatch(old(Missing()), batch, rows)
      ensures r == Err(BadBatchSize) <==> !(1 <= batch <= MAXIMUM_BATCH)
      ensures r.Ok? <==> 1 <= batch <= MAXIMUM_BATCH && MetadataAgree(detail, old(model.summaries.Keys) + Elements(rows))
      ensures r.Ok? ==> r.value == |rows| && model.summaries.Keys == old(model.summaries.Keys) + Elements(rows)
      ensures r.Ok? ==> ExactRuns() == old(ExactRuns()) + Elements(rows)
      ensures r.Err? ==> model == old(model)
    {
      if batch < 1 || batch > MAXIMUM_BATCH { return Err(BadBatchSize), []; }
      var ids := set id | id in detail.runs && id !in model.summaries;
      rows := Smallest(ids, batch);
      assert ids == Missing();
      var m := model;
      var filled := FillRows(rows, batch);
      if !filled {
        model := m;
        return Err(MetadataMismatch), rows;
      }
      return Ok(|rows|), rows;
    }

    method FillRows(rows: seq<nat>, ghost batch: nat) returns (ok: bool)
      requires Valid() && installed && IsBatch(Missing(), batch, rows)
      modifies this`model
      ensures ok <==> MetadataAgree(detail, old(model.summaries.Keys) + Elements(rows))
      ensures ok ==> Valid() && model.summaries.Keys == old(model.summaries.Keys) + Elements(rows)
      ensures ok ==> ExactRuns() == old(ExactRuns()) + Elements(rows)
    {
      ghost var keys, exact, missing := model.summaries.Keys, ExactRuns(), Missing();
      assert Elements(rows[..0]) == {};
      for at := 0 to |rows|
        invariant Valid()
        invariant model.summaries.Keys == keys + Elements(rows[..at])
        invariant ExactRuns() == exact + Elements(rows[..at])
      {
        NextRow(missing, batch, rows, at);
        UnionStep(keys, Elements(rows[..at]), rows[at]);
        UnionStep(exact, Elements(rows[..at]), rows[at]);
        var filled := BackfillRun(rows[at]);
        if !filled {
          WholeBatchDisagrees(detail, keys, rows, at);
          return false;
        }
      }
      assert rows[..|rows|] == rows;
      GoodAgree(detail, model);
      return true;
    }
  }
}
