/** The static-analysis database as its writers change it: every transaction keeps the summaries equal to a recount. */
module StorageDatabase {
  import opened StorageRows
  import opened StorageSummaries

  datatype Review = Review(finding: int, previous: Disposition, disposition: Disposition)

  datatype ReviewResult = Reviewed | InvalidArguments | NotFound | Conflict | CheckFailed

  datatype BackfillError = BadBatchSize | MetadataMismatch

  /** A finding as the analyzer reports it, before it has a run. */
  datatype Reported = Reported(rule: string, metadata: Metadata, disposition: Disposition)

  function InRun(r: Reported, id: nat): Finding { Finding(id, r.rule, r.metadata, r.disposition) }

  function AllInRun(rs: seq<Reported>, id: nat): (r: seq<Finding>)
    ensures |r| == |rs|
  {
    seq(|rs|, i requires 0 <= i < |rs| => InRun(rs[i], id))
  }

  function FilesInRun(fs: seq<FileRow>, id: nat): (r: seq<FileRow>)
    ensures |r| == |fs|
  {
    seq(|fs|, i requires 0 <= i < |fs| => fs[i].(run := id))
  }

  /** The summaries that already are what a recount gives. */
  ghost function ExactRows(d: Detail, summaries: map<nat, Summary>): set<nat> {
    set id | id in summaries && id in d.runs && summaries[id] == Recount(d, id)
  }

  function NewRow(run: Run): Summary { Summary(run, NO_FILES, 0, NO_FINDINGS) }

  // Steps that add one detail row.

  lemma RowsAfter(d: Detail, e: Detail, summaries: map<nat, Summary>, id: nat, row: Summary)
    requires RowsOk(d, summaries) && d.runs == e.runs && id in d.runs
    requires id in summaries && summaries[id] == Recount(d, id) && row == Recount(e, id)
    requires forall k | k in d.runs && k != id :: Recount(e, k) == Recount(d, k)
    ensures RowsOk(e, summaries[id := row])
    ensures ExactRows(e, summaries[id := row]) == ExactRows(d, summaries)
  {}

  lemma RowsWithFinding(d: Detail, summaries: map<nat, Summary>, f: Finding)
    requires RowsOk(d, summaries) && f.run in d.runs && f.run in summaries && summaries[f.run] == Recount(d, f.run)
    ensures var e := d.(findings := d.findings + [f]);
            var row := summaries[f.run].(findings := CountFinding(summaries[f.run].findings, f));
            RowsOk(e, summaries[f.run := row]) && ExactRows(e, summaries[f.run := row]) == ExactRows(d, summaries)
  {
    SummariesAfterFinding(d, f);
    RowsAfter(d, d.(findings := d.findings + [f]), summaries, f.run, Recount(d.(findings := d.findings + [f]), f.run));
  }

  lemma DefinitionsWithFinding(d: Detail, keys: set<nat>, definitions: map<Key, Metadata>, f: Finding)
    requires WellFormed(d) && f.run in d.runs && f.run in keys && DefinitionsOk(d, keys, definitions)
    requires KeyOf(d, f) in definitions ==> definitions[KeyOf(d, f)] == f.metadata
    ensures var e := d.(findings := d.findings + [f]);
            WellFormed(e) && DefinitionsOk(e, keys, definitions[KeyOf(d, f) := f.metadata])
  {
    DefinitionsAfterFinding(d, keys, definitions, f);
    if KeyOf(d, f) in definitions { assert definitions[KeyOf(d, f) := f.metadata] == definitions; }
  }

  /** Files and dependencies touch neither definitions nor rule rows. */
  lemma OtherTables(d: Detail, e: Detail, keys: set<nat>, m: ReadModel)
    requires WellFormed(d) && WellFormed(e) && e.runs == d.runs && e.findings == d.findings
    requires DefinitionsOk(d, keys, m.definitions) && RulesOk(d, keys, m.rules)
    ensures DefinitionsOk(e, keys, m.definitions) && RulesOk(e, keys, m.rules)
  {
    RunKeys(d, e, keys, keys, m);
  }

  /** A new run has no rows yet, so an all-zero summary is exact. */
  lemma RowsWithRun(d: Detail, summaries: map<nat, Summary>, id: nat, run: Run)
    requires WellFormed(d) && RowsOk(d, summaries) && id !in d.runs
    ensures var e := d.(runs := d.runs[id := run]);
            && WellFormed(e) && RowsOk(e, summaries) && RowsOk(e, summaries[id := NewRow(run)])
            && ExactRows(e, summaries[id := NewRow(run)]) == ExactRows(d, summaries) + {id}
            && ExactRows(e, summaries) == ExactRows(d, summaries)
  {
    var e := d.(runs := d.runs[id := run]);
    NoRows(e, id);
    assert Recount(e, id) == NewRow(run);
    RowsSameRecount(d, e, summaries);
    assert id !in summaries;
    RowsAdd(e, summaries, id, NewRow(run));
  }

  lemma RowsSameRecount(d: Detail, e: Detail, summaries: map<nat, Summary>)
    requires RowsOk(d, summaries)
    requires forall k | k in d.runs :: k in e.runs && Recount(e, k) == Recount(d, k)
    ensures RowsOk(e, summaries) && ExactRows(e, summaries) == ExactRows(d, summaries)
  {}

  lemma RowsAdd(d: Detail, summaries: map<nat, Summary>, id: nat, row: Summary)
    requires RowsOk(d, summaries) && id !in summaries && id in d.runs && row == Recount(d, id)
    ensures RowsOk(d, summaries[id := row]) && ExactRows(d, summaries[id := row]) == ExactRows(d, summaries) + {id}
  {}

  lemma RunKeys(d: Detail, e: Detail, keys: set<nat>, more: set<nat>, m: ReadModel)
    requires WellFormed(d) && WellFormed(e) && e.findings == d.findings
    requires forall i | 0 <= i < |d.findings| :: e.runs[d.findings[i].run] == d.runs[d.findings[i].run]
    requires forall i | 0 <= i < |d.findings| :: d.findings[i].run in keys <==> d.findings[i].run in more
    requires DefinitionsOk(d, keys, m.definitions) && RulesOk(d, keys, m.rules)
    ensures DefinitionsOk(e, more, m.definitions) && RulesOk(e, more, m.rules)
  {
    assert forall i :: Row(e, more, i) <==> Row(d, keys, i);
    assert forall i | 0 <= i < |d.findings| :: KeyOf(e, e.findings[i]) == KeyOf(d, d.findings[i]);
    assert UsedKeys(e, more) == UsedKeys(d, keys);
    assert UsedRules(e, more) == UsedRules(d, keys);
  }

  // A run that has rows but no summary gets one.

  lemma UsedUnion(d: Detail, keys: set<nat>, id: nat)
    requires WellFormed(d) && id !in keys
    ensures UsedKeys(d, keys + {id}) == UsedKeys(d, keys) + UsedKeys(d, {id})
    ensures UsedRules(d, keys + {id}) == UsedRules(d, keys) + UsedRules(d, {id})
    ensures UsedRules(d, keys) !! UsedRules(d, {id})
  {}

  /** A run without a summary has no rule rows, so backfill's inserts never collide. */
  lemma NoRuleRows(d: Detail, m: ReadModel, id: nat)
    requires Good(d, m) && id !in m.summaries
    ensures forall p | p in m.rules :: p.0 != id
  {
    assert forall p | p in UsedRules(d, m.summaries.Keys) :: p.0 in m.summaries.Keys;
  }

  lemma SummaryDefinitions(d: Detail, keys: set<nat>, before: map<Key, Metadata>, id: nat, after: map<Key, Metadata>)
    requires WellFormed(d) && DefinitionsOk(d, keys, before) && id !in keys
    requires after.Keys == before.Keys + UsedKeys(d, {id})
    requires forall k | k in before :: after[k] == before[k]
    requires forall i | Row(d, {id}, i) :: KeyOf(d, d.findings[i]) in after && after[KeyOf(d, d.findings[i])] == d.findings[i].metadata
    ensures DefinitionsOk(d, keys + {id}, after)
  {
    UsedUnion(d, keys, id);
    forall i | Row(d, keys + {id}, i)
      ensures KeyOf(d, d.findings[i]) in after && after[KeyOf(d, d.findings[i])] == d.findings[i].metadata
    {
      if d.findings[i].run == id { assert Row(d, {id}, i); } else { assert Row(d, keys, i); }
    }
  }

  lemma SummaryRules(d: Detail, keys: set<nat>, before: map<(nat, Key), nat>, id: nat, rows: map<(nat, Key), nat>)
    requires WellFormed(d) && RulesOk(d, keys, before) && id !in keys && RulesOk(d, {id}, rows)
    ensures RulesOk(d, keys + {id}, before + rows)
  {
    UsedUnion(d, keys, id);
  }

  /** The new run's definitions are right exactly when its findings agree with those already summarised. */
  lemma Disagreement(d: Detail, m: ReadModel, id: nat, definitions: map<Key, Metadata>, i: int)
    requires Good(d, m) && id !in m.summaries && Row(d, {id}, i)
    requires KeyOf(d, d.findings[i]) in definitions && definitions[KeyOf(d, d.findings[i])] != d.findings[i].metadata
    requires forall k | k in m.definitions && k in definitions :: definitions[k] == m.definitions[k]
    requires forall k | k in definitions && k !in m.definitions ::
               exists j :: Row(d, {id}, j) && KeyOf(d, d.findings[j]) == k && d.findings[j].metadata == definitions[k]
    ensures !MetadataAgree(d, m.summaries.Keys + {id})
  {
    var keys := m.summaries.Keys;
    var k := KeyOf(d, d.findings[i]);
    assert Row(d, keys + {id}, i);
    if k in m.definitions {
      assert k in UsedKeys(d, keys);
      var j :| 0 <= j < |d.findings| && d.findings[j].run in keys && k == KeyOf(d, d.findings[j]);
      assert Row(d, keys, j) && Row(d, keys + {id}, j);
    } else {
      var j :| Row(d, {id}, j) && KeyOf(d, d.findings[j]) == k && d.findings[j].metadata == definitions[k];
      assert Row(d, keys + {id}, j);
    }
  }

  // A review changes one disposition.

  lemma ReviewKeeps(d: Detail, m: ReadModel, keys: set<nat>, i: nat, n: Disposition)
    requires WellFormed(d) && DefinitionsOk(d, keys, m.definitions) && RulesOk(d, keys, m.rules) && i < |d.findings|
    ensures var e := d.(findings := d.findings[i := d.findings[i].(disposition := n)]);
            && WellFormed(e) && DefinitionsOk(e, keys, m.definitions) && RulesOk(e, keys, m.rules)
  {
    var e := d.(findings := d.findings[i := d.findings[i].(disposition := n)]);
    assert WellFormed(e);
    ReviewKeys(d, e, keys);
    forall p | p in m.rules ensures m.rules[p] == Count(e.findings, p.0, OfRule(p.1.rule)) {
      CountReplace(d.findings, i, e.findings[i], p.0, OfRule(p.1.rule));
    }
    ReviewDefinitions(d, e, keys, m.definitions);
  }

  lemma ReviewDefinitions(d: Detail, e: Detail, keys: set<nat>, definitions: map<Key, Metadata>)
    requires WellFormed(d) && WellFormed(e) && e.runs == d.runs && |e.findings| == |d.findings|
    requires forall j | 0 <= j < |d.findings| ::
               e.findings[j].run == d.findings[j].run && e.findings[j].rule == d.findings[j].rule && e.findings[j].metadata == d.findings[j].metadata
    requires DefinitionsOk(d, keys, definitions)
    ensures DefinitionsOk(e, keys, definitions)
  {
    ReviewKeys(d, e, keys);
    assert forall j | Row(e, keys, j) :: Row(d, keys, j) && KeyOf(e, e.findings[j]) == KeyOf(d, d.findings[j]);
  }

  lemma ReviewKeys(d: Detail, e: Detail, keys: set<nat>)
    requires WellFormed(d) && WellFormed(e) && e.runs == d.runs && |e.findings| == |d.findings|
    requires forall j | 0 <= j < |d.findings| :: e.findings[j].run == d.findings[j].run && e.findings[j].rule == d.findings[j].rule
    ensures UsedKeys(e, keys) == UsedKeys(d, keys) && UsedRules(e, keys) == UsedRules(d, keys)
  {
    assert forall j | 0 <= j < |d.findings| :: KeyOf(e, e.findings[j]) == KeyOf(d, d.findings[j]);
  }

  predicate NonNegative(t: FindingTotals) {
    && t.all >= 0 && t.info >= 0 && t.low >= 0 && t.medium >= 0 && t.high >= 0 && t.critical >= 0
    && t.unreviewed >= 0 && t.unreviewedHigh >= 0 && t.unreviewedCritical >= 0 && t.suspicious >= 0 && t.confirmedRisk >= 0
  }

  predicate Urgent(f: Finding) { f.disposition == Unreviewed && (f.metadata.severity == High || f.metadata.severity == Critical) }

  /** On an exact row the trigger's CHECK never fails; on a row left by version 1 it fails exactly for urgent findings. */
  lemma ReviewRow(d: Detail, row: Summary, i: nat, n: Disposition)
    requires i < |d.findings| && d.findings[i].run in d.runs && n != Unreviewed
    requires row == Recount(d, d.findings[i].run) || row == Zeroed(Recount(d, d.findings[i].run))
    ensures var f := d.findings[i];
            var e := d.(findings := d.findings[i := f.(disposition := n)]);
            var after := row.(findings := Redispose(row.findings, f.metadata.severity, f.disposition, n));
            && (NonNegative(after.findings) <==> row == Recount(d, f.run) || !Urgent(f))
            && (row == Recount(d, f.run) ==> after == Recount(e, f.run))
            && (row != Recount(d, f.run) && !Urgent(f) ==> after == Zeroed(Recount(e, f.run)))
  {
    var f := d.findings[i];
    RedisposeIsRecount(d.findings, i, n, f.run);
    if f.disposition == Unreviewed {
      CountPositive(d.findings, i, f.run, OfDisposition(Unreviewed));
      CountPositive(d.findings, i, f.run, OfBoth(Unreviewed, f.metadata.severity));
    }
    CountPositive(d.findings, i, f.run, OfDisposition(f.disposition));
  }

  ghost function AfterReview(d: Detail, i: nat, n: Disposition): Detail
    requires i < |d.findings|
  {
    d.(findings := d.findings[i := d.findings[i].(disposition := n)])
  }

  /** The summary row after the disposition trigger. */
  function Retotalled(row: Summary, f: Finding, n: Disposition): Summary {
    row.(findings := Redispose(row.findings, f.metadata.severity, f.disposition, n))
  }

  lemma ReviewedRow(d: Detail, row: Summary, i: nat, n: Disposition)
    requires i < |d.findings| && d.findings[i].run in d.runs && n != Unreviewed
    requires row == Recount(d, d.findings[i].run) || row == Zeroed(Recount(d, d.findings[i].run))
    requires NonNegative(Retotalled(row, d.findings[i], n).findings)
    ensures var exact := Recount(AfterReview(d, i, n), d.findings[i].run);
            var after := Retotalled(row, d.findings[i], n);
            && (after == exact || after == Zeroed(exact))
            && (after == exact <==> row == Recount(d, d.findings[i].run))
  {
    ReviewRow(d, row, i, n);
    RedisposeIsRecount(d.findings, i, n, d.findings[i].run);
  }

  lemma ReviewOthers(d: Detail, i: nat, n: Disposition)
    requires i < |d.findings|
    ensures var e := d.(findings := d.findings[i := d.findings[i].(disposition := n)]);
            forall k | k in d.runs && k != d.findings[i].run :: Recount(e, k) == Recount(d, k)
  {
    forall k | k in d.runs && k != d.findings[i].run { RedisposeIsRecount(d.findings, i, n, k); }
  }

  // The refresh of the two columns.

  lemma UrgentCounted(d: Detail, run: nat)
    ensures (exists i :: 0 <= i < |d.findings| && d.findings[i].run == run && Urgent(d.findings[i])) <==>
            Count(d.findings, run, OfBoth(Unreviewed, High)) + Count(d.findings, run, OfBoth(Unreviewed, Critical)) > 0
  {
    if i: nat :| i < |d.findings| && d.findings[i].run == run && Urgent(d.findings[i]) {
      CountPositive(d.findings, i, run, OfBoth(Unreviewed, d.findings[i].metadata.severity));
    } else {
      assert forall i | 0 <= i < |d.findings| && d.findings[i].run == run :: !Urgent(d.findings[i]);
      CountUnmatched(d.findings, run, OfBoth(Unreviewed, High));
      CountUnmatched(d.findings, run, OfBoth(Unreviewed, Critical));
    }
  }

  function Refreshed(d: Detail, run: nat, s: Summary): Summary {
    if s.findings.unreviewedHigh == 0 && s.findings.unreviewedCritical == 0 &&
       exists i :: 0 <= i < |d.findings| && d.findings[i].run == run && Urgent(d.findings[i]) then
      s.(findings := s.findings.(
        unreviewedHigh := Count(d.findings, run, OfBoth(Unreviewed, High)),
        unreviewedCritical := Count(d.findings, run, OfBoth(Unreviewed, Critical))))
    else s
  }

  /** Where the other columns are right, the refresh makes a row exact exactly when it was exact or held two zeros. */
  lemma RefreshRepairs(d: Detail, run: nat, s: Summary)
    requires run in d.runs
    requires Zeroed(s) == Zeroed(Recount(d, run))
    ensures Refreshed(d, run, s) == Recount(d, run) <==>
            s == Recount(d, run) || (s.findings.unreviewedHigh == 0 && s.findings.unreviewedCritical == 0)
  {
    UrgentCounted(d, run);
    var exact := Recount(d, run);
    assert s == s.(findings := s.findings.(unreviewedHigh := s.findings.unreviewedHigh));
    assert Zeroed(s).header == s.header && Zeroed(s).files == s.files && Zeroed(s).dependencies == s.dependencies;
    assert Zeroed(exact).header == exact.header && Zeroed(exact).files == exact.files;
  }
}
