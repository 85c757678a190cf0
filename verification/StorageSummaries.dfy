/** Storage v2: summary tables that triggers keep up to date, backfill builds, and a refresh repairs. */
module StorageSummaries {
  import opened StorageRows

  /** A rule definition is identified by the columns of its UNIQUE constraint. */
  datatype Key = Key(ruleset: string, rule: string)

  datatype ReadModel = ReadModel(
    summaries: map<nat, Summary>, definitions: map<Key, Metadata>, rules: map<(nat, Key), nat>)

  const NOTHING := ReadModel(map[], map[], map[])

  /** Foreign keys: every detail row belongs to a run. */
  ghost predicate WellFormed(d: Detail) {
    && (forall i | 0 <= i < |d.findings| :: d.findings[i].run in d.runs)
    && (forall i | 0 <= i < |d.files| :: d.files[i].run in d.runs)
    && (forall i | 0 <= i < |d.dependencies| :: d.dependencies[i] in d.runs)
  }

  function KeyOf(d: Detail, f: Finding): Key
    requires f.run in d.runs
  {
    Key(d.runs[f.run].ruleset, f.rule)
  }

  ghost predicate Row(d: Detail, keys: set<nat>, i: int) { 0 <= i < |d.findings| && d.findings[i].run in keys }

  /** The (run, rule) pairs that findings of some runs use. */
  ghost function UsedRules(d: Detail, keys: set<nat>): set<(nat, Key)>
    requires WellFormed(d)
  {
    set i | 0 <= i < |d.findings| && d.findings[i].run in keys :: (d.findings[i].run, KeyOf(d, d.findings[i]))
  }

  ghost function UsedKeys(d: Detail, keys: set<nat>): set<Key>
    requires WellFormed(d)
  {
    set i | 0 <= i < |d.findings| && d.findings[i].run in keys :: KeyOf(d, d.findings[i])
  }

  /** Findings of the same rule and ruleset have the same metadata. */
  ghost predicate MetadataAgree(d: Detail, keys: set<nat>)
    requires WellFormed(d)
  {
    forall i, j | Row(d, keys, i) && Row(d, keys, j) && KeyOf(d, d.findings[i]) == KeyOf(d, d.findings[j]) ::
      d.findings[i].metadata == d.findings[j].metadata
  }

  ghost predicate DefinitionsOk(d: Detail, keys: set<nat>, definitions: map<Key, Metadata>)
    requires WellFormed(d)
  {
    && definitions.Keys == UsedKeys(d, keys)
    && forall i | Row(d, keys, i) :: KeyOf(d, d.findings[i]) in definitions && definitions[KeyOf(d, d.findings[i])] == d.findings[i].metadata
  }

  ghost predicate RulesOk(d: Detail, keys: set<nat>, rules: map<(nat, Key), nat>)
    requires WellFormed(d)
  {
    && rules.Keys == UsedRules(d, keys)
    && forall p | p in rules :: rules[p] == Count(d.findings, p.0, OfRule(p.1.rule))
  }

  /** A row as schema version 1 left it: the two columns added later are still zero. */
  function Zeroed(s: Summary): Summary { s.(findings := s.findings.(unreviewedHigh := 0, unreviewedCritical := 0)) }

  ghost predicate RowsOk(d: Detail, summaries: map<nat, Summary>) {
    forall id | id in summaries ::
      id in d.runs && (summaries[id] == Recount(d, id) || summaries[id] == Zeroed(Recount(d, id)))
  }

  ghost predicate Exact(d: Detail, summaries: map<nat, Summary>) {
    forall id | id in summaries :: id in d.runs && summaries[id] == Recount(d, id)
  }

  /** What holds in every reachable state. */
  ghost predicate Good(d: Detail, m: ReadModel) {
    && WellFormed(d) && RowsOk(d, m.summaries)
    && DefinitionsOk(d, m.summaries.Keys, m.definitions) && RulesOk(d, m.summaries.Keys, m.rules)
  }

  // One finding is inserted.

  function Bumped(rules: map<(nat, Key), nat>, p: (nat, Key)): map<(nat, Key), nat> {
    rules[p := (if p in rules then rules[p] else 0) + 1]
  }

  lemma UsedAppend(d: Detail, f: Finding, keys: set<nat>)
    requires WellFormed(d) && f.run in d.runs && f.run in keys
    ensures var e := d.(findings := d.findings + [f]);
            && WellFormed(e)
            && UsedRules(e, keys) == UsedRules(d, keys) + {(f.run, KeyOf(d, f))}
            && UsedKeys(e, keys) == UsedKeys(d, keys) + {KeyOf(d, f)}
  {
    var e := d.(findings := d.findings + [f]);
    var n := |d.findings|;
    assert e.findings[n] == f;
    assert forall i | 0 <= i < n :: e.findings[i] == d.findings[i];
    assert forall i | 0 <= i < |e.findings| :: e.findings[i].run in e.runs;
    forall p ensures p in UsedRules(e, keys) <==> p in UsedRules(d, keys) + {(f.run, KeyOf(d, f))} {
      if p in UsedRules(d, keys) {
        var i :| 0 <= i < n && d.findings[i].run in keys && p == (d.findings[i].run, KeyOf(d, d.findings[i]));
        assert e.findings[i] == d.findings[i];
      }
    }
    forall p ensures p in UsedKeys(e, keys) <==> p in UsedKeys(d, keys) + {KeyOf(d, f)} {
      if p in UsedKeys(d, keys) {
        var i :| 0 <= i < n && d.findings[i].run in keys && p == KeyOf(d, d.findings[i]);
        assert e.findings[i] == d.findings[i];
      }
    }
  }

  lemma RulesAfterFinding(d: Detail, keys: set<nat>, rules: map<(nat, Key), nat>, f: Finding)
    requires WellFormed(d) && f.run in d.runs && f.run in keys && RulesOk(d, keys, rules)
    ensures var e := d.(findings := d.findings + [f]);
            WellFormed(e) && RulesOk(e, keys, Bumped(rules, (f.run, KeyOf(d, f))))
  {
    var e := d.(findings := d.findings + [f]);
    var p := (f.run, KeyOf(d, f));
    UsedAppend(d, f, keys);
    forall q | q in Bumped(rules, p) ensures Bumped(rules, p)[q] == Count(e.findings, q.0, OfRule(q.1.rule)) {
      CountAppend(d.findings, f, q.0, OfRule(q.1.rule));
      if q == p {
        if p !in rules { UnusedRule(d, keys, p); }
      } else {
        assert q in rules && q in UsedRules(d, keys);
        assert q.1.ruleset == d.runs[q.0].ruleset;
      }
    }
  }

  lemma UnusedRule(d: Detail, keys: set<nat>, p: (nat, Key))
    requires WellFormed(d) && p !in UsedRules(d, keys) && p.0 in keys && p.0 in d.runs && p.1.ruleset == d.runs[p.0].ruleset
    ensures Count(d.findings, p.0, OfRule(p.1.rule)) == 0
  {
    forall i | 0 <= i < |d.findings| && d.findings[i].run == p.0 ensures d.findings[i].rule != p.1.rule {
      assert (d.findings[i].run, KeyOf(d, d.findings[i])) in UsedRules(d, keys);
    }
    CountUnmatched(d.findings, p.0, OfRule(p.1.rule));
  }

  lemma {:induction false} CountUnmatched(rows: seq<Finding>, run: nat, c: FindingColumn)
    requires forall i | 0 <= i < |rows| && rows[i].run == run :: !Matches(c, rows[i])
    ensures Count(rows, run, c) == 0
  {
    if rows != [] { CountUnmatched(rows[..|rows| - 1], run, c); }
  }

  /** The definitions after the trigger's INSERT OR IGNORE are right exactly when the new finding agrees with them. */
  lemma DefinitionsAfterFinding(d: Detail, keys: set<nat>, definitions: map<Key, Metadata>, f: Finding)
    requires WellFormed(d) && f.run in d.runs && f.run in keys && DefinitionsOk(d, keys, definitions)
    ensures var e := d.(findings := d.findings + [f]);
            var k := KeyOf(d, f);
            var after := if k in definitions then definitions else definitions[k := f.metadata];
            && WellFormed(e)
            && (after[k] == f.metadata ==> DefinitionsOk(e, keys, after) && MetadataAgree(e, keys))
            && (after[k] != f.metadata ==> !MetadataAgree(e, keys))
  {
    var e := d.(findings := d.findings + [f]);
    var k := KeyOf(d, f);
    var n := |d.findings|;
    var after := if k in definitions then definitions else definitions[k := f.metadata];
    UsedAppend(d, f, keys);
    assert e.findings[n] == f && Row(e, keys, n);
    if after[k] == f.metadata {
      forall i | Row(e, keys, i)
        ensures KeyOf(e, e.findings[i]) in after && after[KeyOf(e, e.findings[i])] == e.findings[i].metadata
      {
        if i < n { assert Row(d, keys, i); }
      }
    } else {
      assert k in UsedKeys(d, keys);
      var i :| 0 <= i < n && d.findings[i].run in keys && k == KeyOf(d, d.findings[i]);
      assert Row(d, keys, i) && Row(e, keys, i);
    }
  }

  lemma SummariesAfterFinding(d: Detail, f: Finding)
    requires f.run in d.runs
    ensures var e := d.(findings := d.findings + [f]);
            && Recount(e, f.run) == Recount(d, f.run).(findings := CountFinding(Recount(d, f.run).findings, f))
            && forall id | id in d.runs && id != f.run :: Recount(e, id) == Recount(d, id)
  {
    forall id | id in d.runs { CountFindingIsRecount(d.findings, f, id); }
  }

  // A run gets its summary: nothing else changes for the other runs.

  lemma AgreeMonotone(d: Detail, e: Detail, keys: set<nat>, more: set<nat>)
    requires WellFormed(d) && WellFormed(e) && d.runs == e.runs && keys <= more
    requires d.findings <= e.findings && MetadataAgree(e, more)
    ensures MetadataAgree(d, keys)
  {
    forall i, j | Row(d, keys, i) && Row(d, keys, j) && KeyOf(d, d.findings[i]) == KeyOf(d, d.findings[j])
      ensures d.findings[i].metadata == d.findings[j].metadata
    {
      assert Row(e, more, i) && Row(e, more, j);
    }
  }

  lemma GoodAgree(d: Detail, m: ReadModel)
    requires Good(d, m)
    ensures MetadataAgree(d, m.summaries.Keys)
  {}

  /** Good states with the same detail rows and the same runs summarised, exactly counted, are the same state. */
  lemma OneReadModel(d: Detail, m: ReadModel, n: ReadModel)
    requires Good(d, m) && Good(d, n) && Exact(d, m.summaries) && Exact(d, n.summaries)
    requires m.summaries.Keys == n.summaries.Keys
    ensures m == n
  {
    assert m.summaries == n.summaries;
    OneDefinitions(d, m.summaries.Keys, m.definitions, n.definitions);
    OneRules(d, m.summaries.Keys, m.rules, n.rules);
  }

  lemma OneDefinitions(d: Detail, keys: set<nat>, a: map<Key, Metadata>, b: map<Key, Metadata>)
    requires WellFormed(d) && DefinitionsOk(d, keys, a) && DefinitionsOk(d, keys, b)
    ensures a == b
  {
    forall k | k in a ensures a[k] == b[k] {
      assert k in UsedKeys(d, keys);
      var i :| 0 <= i < |d.findings| && d.findings[i].run in keys && k == KeyOf(d, d.findings[i]);
      assert Row(d, keys, i);
    }
  }

  lemma OneRules(d: Detail, keys: set<nat>, a: map<(nat, Key), nat>, b: map<(nat, Key), nat>)
    requires WellFormed(d) && RulesOk(d, keys, a) && RulesOk(d, keys, b)
    ensures a == b
  {
    assert a.Keys == b.Keys;
  }

  // Sums of the rule rows.

  ghost function RuleNames(m: ReadModel, id: nat): set<string> { set p | p in m.rules && p.0 == id :: p.1.rule }

  ghost function Total(rules: map<(nat, Key), nat>, id: nat, ruleset: string, names: set<string>): nat
    requires forall r | r in names :: (id, Key(ruleset, r)) in rules
  {
    if names == {} then 0
    else
      var r :| r in names;
      rules[(id, Key(ruleset, r))] + Total(rules, id, ruleset, names - {r})
  }

  lemma {:induction false} TotalIsSum(d: Detail, keys: set<nat>, rules: map<(nat, Key), nat>, id: nat, ruleset: string, names: set<string>)
    requires WellFormed(d) && RulesOk(d, keys, rules)
    requires forall r | r in names :: (id, Key(ruleset, r)) in rules
    ensures Total(rules, id, ruleset, names) == SumOver(names, d.findings, id)
  {
    if names != {} {
      var r :| r in names && Total(rules, id, ruleset, names) == rules[(id, Key(ruleset, r))] + Total(rules, id, ruleset, names - {r});
      SumSplit(names, r, d.findings, id);
      TotalIsSum(d, keys, rules, id, ruleset, names - {r});
    }
  }

  function SeverityCount(t: FindingTotals, s: Severity): int {
    match s
    case Info => t.info
    case Low => t.low
    case Medium => t.medium
    case High => t.high
    case Critical => t.critical
  }

  lemma NamesAreKeys(d: Detail, m: ReadModel, id: nat)
    requires Good(d, m) && id in m.summaries
    ensures forall r :: r in RuleNames(m, id) <==> (id, Key(d.runs[id].ruleset, r)) in m.rules
    ensures forall r | r in RuleNames(m, id) :: Key(d.runs[id].ruleset, r) in m.definitions
  {
    forall p | p in m.rules && p.0 == id ensures p.1.ruleset == d.runs[id].ruleset && p.1 in m.definitions {
      assert p in UsedRules(d, m.summaries.Keys);
    }
  }

  /** The rules of a run that have a severity. */
  ghost function NamesOf(m: ReadModel, id: nat, ruleset: string, s: Severity): set<string> {
    set r | r in RuleNames(m, id) && Key(ruleset, r) in m.definitions && m.definitions[Key(ruleset, r)].severity == s
  }

  lemma FindingRule(d: Detail, m: ReadModel, i: nat)
    requires Good(d, m) && i < |d.findings| && d.findings[i].run in m.summaries
    ensures var f := d.findings[i];
            && f.rule in RuleNames(m, f.run) && KeyOf(d, f) in m.definitions
            && m.definitions[KeyOf(d, f)].severity == f.metadata.severity
  {
    var f := d.findings[i];
    assert Row(d, m.summaries.Keys, i);
    assert (f.run, KeyOf(d, f)) in UsedRules(d, m.summaries.Keys);
  }

  lemma FindingTotal(d: Detail, m: ReadModel, id: nat)
    requires Good(d, m) && id in m.summaries
    requires forall r | r in RuleNames(m, id) :: (id, Key(d.runs[id].ruleset, r)) in m.rules
    ensures Total(m.rules, id, d.runs[id].ruleset, RuleNames(m, id)) == Count(d.findings, id, AllFindings)
  {
    forall i | 0 <= i < |d.findings| && d.findings[i].run == id ensures d.findings[i].rule in RuleNames(m, id) {
      FindingRule(d, m, i);
    }
    SumsAreCounts(d, RuleNames(m, id), id, AllFindings, m.summaries.Keys, m.rules);
  }

  lemma SeverityName(d: Detail, m: ReadModel, i: nat, s: Severity)
    requires Good(d, m) && i < |d.findings| && d.findings[i].run in m.summaries
    ensures var f := d.findings[i];
            f.rule in NamesOf(m, f.run, d.runs[f.run].ruleset, s) <==> Matches(OfSeverity(s), f)
  {
    FindingRule(d, m, i);
  }

  lemma SeverityTotal(d: Detail, m: ReadModel, id: nat, s: Severity)
    requires Good(d, m) && id in m.summaries
    requires forall r | r in RuleNames(m, id) :: (id, Key(d.runs[id].ruleset, r)) in m.rules
    ensures Total(m.rules, id, d.runs[id].ruleset, NamesOf(m, id, d.runs[id].ruleset, s)) == Count(d.findings, id, OfSeverity(s))
  {
    var names := NamesOf(m, id, d.runs[id].ruleset, s);
    forall i | 0 <= i < |d.findings| && d.findings[i].run == id
      ensures d.findings[i].rule in names <==> Matches(OfSeverity(s), d.findings[i])
    {
      SeverityName(d, m, i, s);
    }
    assert forall r | r in names :: r in RuleNames(m, id);
    SumsAreCounts(d, names, id, OfSeverity(s), m.summaries.Keys, m.rules);
  }

  lemma RowCounts(d: Detail, m: ReadModel, id: nat)
    requires RowsOk(d, m.summaries) && id in m.summaries
    ensures m.summaries[id].findings.all == Count(d.findings, id, AllFindings)
    ensures forall s :: SeverityCount(m.summaries[id].findings, s) == Count(d.findings, id, OfSeverity(s))
  {}

  /** Per-rule occurrences add up to the finding count, and those of each severity to that severity's counter. */
  lemma RuleTotals(d: Detail, m: ReadModel, id: nat, s: Severity)
    requires Good(d, m) && id in m.summaries
    ensures forall r | r in RuleNames(m, id) :: (id, Key(d.runs[id].ruleset, r)) in m.rules && Key(d.runs[id].ruleset, r) in m.definitions
    ensures Total(m.rules, id, d.runs[id].ruleset, RuleNames(m, id)) == m.summaries[id].findings.all
    ensures Total(m.rules, id, d.runs[id].ruleset, NamesOf(m, id, d.runs[id].ruleset, s)) == SeverityCount(m.summaries[id].findings, s)
  {
    NamesAreKeys(d, m, id);
    RowCounts(d, m, id);
    FindingTotal(d, m, id);
    SeverityTotal(d, m, id, s);
  }

  lemma SumsAreCounts(d: Detail, names: set<string>, id: nat, c: FindingColumn, keys: set<nat>, rules: map<(nat, Key), nat>)
    requires WellFormed(d) && RulesOk(d, keys, rules) && id in d.runs
    requires forall r | r in names :: (id, Key(d.runs[id].ruleset, r)) in rules
    requires forall i | 0 <= i < |d.findings| && d.findings[i].run == id :: d.findings[i].rule in names <==> Matches(c, d.findings[i])
    ensures Total(rules, id, d.runs[id].ruleset, names) == Count(d.findings, id, c)
  {
    TotalIsSum(d, keys, rules, id, d.runs[id].ruleset, names);
    SumIsCount(names, d.findings, id, c);
  }
}
