/** Static-analysis detail rows, the totals triggers keep of them, and the totals a recount gives. */
module StorageRows {
  datatype Severity = Info | Low | Medium | High | Critical

  datatype Disposition = Unreviewed | Expected | ReviewedBenign | Mitigated | Suspicious | ConfirmedRisk | FalsePositive

  datatype Metadata = Metadata(category: string, severity: Severity, title: string, explanation: string)

  datatype Finding = Finding(run: nat, rule: string, metadata: Metadata, disposition: Disposition)

  datatype FileRow = FileRow(run: nat, size: nat, executable: bool, nativeBinary: bool, generated: bool, minified: bool)

  datatype Run = Run(artifact: string, analyzer: string, analyzerVersion: string, ruleset: string, status: string)

  datatype Detail = Detail(runs: map<nat, Run>, findings: seq<Finding>, files: seq<FileRow>, dependencies: seq<nat>)

  // Counting with a condition.

  datatype FindingColumn =
    | AllFindings | OfSeverity(severity: Severity) | OfDisposition(disposition: Disposition)
    | OfBoth(disposition: Disposition, severity: Severity) | OfRule(rule: string)

  predicate Matches(c: FindingColumn, f: Finding) {
    match c
    case AllFindings => true
    case OfSeverity(s) => f.metadata.severity == s
    case OfDisposition(d) => f.disposition == d
    case OfBoth(d, s) => f.disposition == d && f.metadata.severity == s
    case OfRule(r) => f.rule == r
  }

  function Bit(b: bool): int { if b then 1 else 0 }

  function Count(rows: seq<Finding>, run: nat, c: FindingColumn): (n: nat) {
    if rows == [] then 0
    else
      var last := rows[|rows| - 1];
      Count(rows[..|rows| - 1], run, c) + Bit(last.run == run && Matches(c, last))
  }

  lemma CountAppend(rows: seq<Finding>, f: Finding, run: nat, c: FindingColumn)
    ensures Count(rows + [f], run, c) == Count(rows, run, c) + Bit(f.run == run && Matches(c, f))
  {
    assert (rows + [f])[..|rows|] == rows;
  }

  lemma {:induction false} CountReplace(rows: seq<Finding>, i: nat, f: Finding, run: nat, c: FindingColumn)
    requires i < |rows|
    ensures Count(rows[i := f], run, c) ==
            Count(rows, run, c) - Bit(rows[i].run == run && Matches(c, rows[i])) + Bit(f.run == run && Matches(c, f))
  {
    var n := |rows| - 1;
    if i == n {
      assert rows[i := f][..n] == rows[..n];
    } else {
      assert rows[i := f][..n] == rows[..n][i := f];
      CountReplace(rows[..n], i, f, run, c);
    }
  }

  lemma {:induction false} CountPositive(rows: seq<Finding>, i: nat, run: nat, c: FindingColumn)
    requires i < |rows| && rows[i].run == run && Matches(c, rows[i])
    ensures Count(rows, run, c) > 0
  {
    if i < |rows| - 1 { CountPositive(rows[..|rows| - 1], i, run, c); }
  }

  lemma {:induction false} CountNone(rows: seq<Finding>, run: nat, c: FindingColumn)
    requires forall i | 0 <= i < |rows| :: rows[i].run != run
    ensures Count(rows, run, c) == 0
  {
    if rows != [] { CountNone(rows[..|rows| - 1], run, c); }
  }

  datatype FileColumn = AllFiles | Executable | NativeBinary | Generated | Minified

  predicate FileMatches(c: FileColumn, f: FileRow) {
    match c
    case AllFiles => true
    case Executable => f.executable
    case NativeBinary => f.nativeBinary
    case Generated => f.generated
    case Minified => f.minified
  }

  function CountFiles(rows: seq<FileRow>, run: nat, c: FileColumn): nat {
    if rows == [] then 0
    else
      var last := rows[|rows| - 1];
      CountFiles(rows[..|rows| - 1], run, c) + Bit(last.run == run && FileMatches(c, last))
  }

  function SumBytes(rows: seq<FileRow>, run: nat): nat {
    if rows == [] then 0
    else
      var last := rows[|rows| - 1];
      SumBytes(rows[..|rows| - 1], run) + if last.run == run then last.size else 0
  }

  function CountRuns(rows: seq<nat>, run: nat): nat {
    if rows == [] then 0 else CountRuns(rows[..|rows| - 1], run) + Bit(rows[|rows| - 1] == run)
  }

  // The summary row: each of its counters, spelled out.

  datatype FindingTotals = FindingTotals(
    all: int, info: int, low: int, medium: int, high: int, critical: int,
    unreviewed: int, unreviewedHigh: int, unreviewedCritical: int, suspicious: int, confirmedRisk: int)

  datatype FileTotals = FileTotals(
    all: int, bytes: int, executable: int, nativeBinary: int, generated: int, minified: int)

  datatype Summary = Summary(header: Run, files: FileTotals, dependencies: int, findings: FindingTotals)

  const NO_FINDINGS := FindingTotals(0, 0, 0, 0, 0, 0, 0, 0, 0, 0, 0)
  const NO_FILES := FileTotals(0, 0, 0, 0, 0, 0)

  /** What backfill's queries count. */
  function RecountFindings(rows: seq<Finding>, run: nat): FindingTotals {
    FindingTotals(
      Count(rows, run, AllFindings),
      Count(rows, run, OfSeverity(Info)), Count(rows, run, OfSeverity(Low)), Count(rows, run, OfSeverity(Medium)),
      Count(rows, run, OfSeverity(High)), Count(rows, run, OfSeverity(Critical)),
      Count(rows, run, OfDisposition(Unreviewed)),
      Count(rows, run, OfBoth(Unreviewed, High)), Count(rows, run, OfBoth(Unreviewed, Critical)),
      Count(rows, run, OfDisposition(Suspicious)), Count(rows, run, OfDisposition(ConfirmedRisk)))
  }

  function RecountFiles(rows: seq<FileRow>, run: nat): FileTotals {
    FileTotals(
      CountFiles(rows, run, AllFiles), SumBytes(rows, run), CountFiles(rows, run, Executable),
      CountFiles(rows, run, NativeBinary), CountFiles(rows, run, Generated), CountFiles(rows, run, Minified))
  }

  function Recount(d: Detail, run: nat): Summary
    requires run in d.runs
  {
    Summary(d.runs[run], RecountFiles(d.files, run), CountRuns(d.dependencies, run), RecountFindings(d.findings, run))
  }

  /** The finding-insert trigger on one summary row. */
  function CountFinding(t: FindingTotals, f: Finding): FindingTotals {
    var s, d := f.metadata.severity, f.disposition;
    t.(all := t.all + 1,
       info := t.info + Bit(s == Info),
       low := t.low + Bit(s == Low),
       medium := t.medium + Bit(s == Medium),
       high := t.high + Bit(s == High),
       critical := t.critical + Bit(s == Critical),
       unreviewed := t.unreviewed + Bit(d == Unreviewed),
       unreviewedHigh := t.unreviewedHigh + Bit(d == Unreviewed && s == High),
       unreviewedCritical := t.unreviewedCritical + Bit(d == Unreviewed && s == Critical),
       suspicious := t.suspicious + Bit(d == Suspicious),
       confirmedRisk := t.confirmedRisk + Bit(d == ConfirmedRisk))
  }

  /** The file-insert trigger. */
  function CountFile(t: FileTotals, f: FileRow): FileTotals {
    t.(all := t.all + 1,
       bytes := t.bytes + f.size,
       executable := t.executable + Bit(f.executable),
       nativeBinary := t.nativeBinary + Bit(f.nativeBinary),
       generated := t.generated + Bit(f.generated),
       minified := t.minified + Bit(f.minified))
  }

  /** The disposition-update trigger: the row's severity s goes from disposition o to n. */
  function Redispose(t: FindingTotals, s: Severity, o: Disposition, n: Disposition): FindingTotals {
    t.(unreviewed := t.unreviewed - Bit(o == Unreviewed) + Bit(n == Unreviewed),
       unreviewedHigh := t.unreviewedHigh - Bit(o == Unreviewed && s == High) + Bit(n == Unreviewed && s == High),
       unreviewedCritical := t.unreviewedCritical - Bit(o == Unreviewed && s == Critical) + Bit(n == Unreviewed && s == Critical),
       suspicious := t.suspicious - Bit(o == Suspicious) + Bit(n == Suspicious),
       confirmedRisk := t.confirmedRisk - Bit(o == ConfirmedRisk) + Bit(n == ConfirmedRisk))
  }

  lemma CountFindingIsRecount(rows: seq<Finding>, f: Finding, run: nat)
    ensures RecountFindings(rows + [f], run) ==
            if f.run == run then CountFinding(RecountFindings(rows, run), f) else RecountFindings(rows, run)
  {
    forall c ensures Count(rows + [f], run, c) == Count(rows, run, c) + Bit(f.run == run && Matches(c, f)) {
      CountAppend(rows, f, run, c);
    }
  }

  lemma RedisposeIsRecount(rows: seq<Finding>, i: nat, n: Disposition, run: nat)
    requires i < |rows|
    ensures RecountFindings(rows[i := rows[i].(disposition := n)], run) ==
            if rows[i].run == run
            then Redispose(RecountFindings(rows, run), rows[i].metadata.severity, rows[i].disposition, n)
            else RecountFindings(rows, run)
  {
    var f := rows[i].(disposition := n);
    forall c
      ensures Count(rows[i := f], run, c) ==
              Count(rows, run, c) - Bit(rows[i].run == run && Matches(c, rows[i])) + Bit(f.run == run && Matches(c, f))
    {
      CountReplace(rows, i, f, run, c);
    }
  }

  lemma CountFileIsRecount(rows: seq<FileRow>, f: FileRow, run: nat)
    ensures RecountFiles(rows + [f], run) ==
            if f.run == run then CountFile(RecountFiles(rows, run), f) else RecountFiles(rows, run)
  {
    assert (rows + [f])[..|rows|] == rows;
  }

  lemma CountRunIsRecount(rows: seq<nat>, more: nat, run: nat)
    ensures CountRuns(rows + [more], run) == CountRuns(rows, run) + Bit(more == run)
  {
    assert (rows + [more])[..|rows|] == rows;
  }

  lemma {:induction false} NoRows(d: Detail, run: nat)
    requires forall i | 0 <= i < |d.findings| :: d.findings[i].run != run
    requires forall i | 0 <= i < |d.files| :: d.files[i].run != run
    requires forall i | 0 <= i < |d.dependencies| :: d.dependencies[i] != run
    ensures RecountFindings(d.findings, run) == NO_FINDINGS && RecountFiles(d.files, run) == NO_FILES
    ensures CountRuns(d.dependencies, run) == 0
  {
    forall c ensures Count(d.findings, run, c) == 0 { CountNone(d.findings, run, c); }
    NoFiles(d.files, run);
    NoRuns(d.dependencies, run);
  }

  lemma {:induction false} NoFiles(rows: seq<FileRow>, run: nat)
    requires forall i | 0 <= i < |rows| :: rows[i].run != run
    ensures RecountFiles(rows, run) == NO_FILES
  {
    if rows != [] {
      NoFiles(rows[..|rows| - 1], run);
      var before := RecountFiles(rows[..|rows| - 1], run);
      assert before.all == 0 && before.bytes == 0 && before.executable == 0;
      assert before.nativeBinary == 0 && before.generated == 0 && before.minified == 0;
    }
  }

  lemma {:induction false} NoRuns(rows: seq<nat>, run: nat)
    requires forall i | 0 <= i < |rows| :: rows[i] != run
    ensures CountRuns(rows, run) == 0
  {
    if rows != [] { NoRuns(rows[..|rows| - 1], run); }
  }

  // Sums over rules.

  /** The occurrences of a set of rules, added up. */
  ghost function SumOver(rules: set<string>, rows: seq<Finding>, run: nat): nat {
    if rules == {} then 0
    else
      var r :| r in rules;
      Count(rows, run, OfRule(r)) + SumOver(rules - {r}, rows, run)
  }

  lemma {:induction false} SumSplit(rules: set<string>, r: string, rows: seq<Finding>, run: nat)
    requires r in rules
    ensures SumOver(rules, rows, run) == Count(rows, run, OfRule(r)) + SumOver(rules - {r}, rows, run)
  {
    var first :| first in rules && SumOver(rules, rows, run) == Count(rows, run, OfRule(first)) + SumOver(rules - {first}, rows, run);
    if first != r {
      SumSplit(rules - {first}, r, rows, run);
      SumSplit(rules - {r}, first, rows, run);
      assert rules - {first} - {r} == rules - {r} - {first};
    }
  }

  lemma {:induction false} SumUnaffected(rules: set<string>, rows: seq<Finding>, f: Finding, run: nat)
    requires f.run != run || f.rule !in rules
    ensures SumOver(rules, rows + [f], run) == SumOver(rules, rows, run)
  {
    if rules != {} {
      var r :| r in rules;
      SumSplit(rules, r, rows, run);
      SumSplit(rules, r, rows + [f], run);
      CountAppend(rows, f, run, OfRule(r));
      SumUnaffected(rules - {r}, rows, f, run);
    }
  }

  lemma {:induction false} SumNothing(rules: set<string>, run: nat)
    ensures SumOver(rules, [], run) == 0
  {
    if rules != {} {
      var r :| r in rules;
      SumSplit(rules, r, [], run);
      SumNothing(rules - {r}, run);
    }
  }

  /** The rows of a run whose rule is in a set are as many as the occurrences of the rules of that set. */
  lemma {:induction false} SumIsCount(rules: set<string>, rows: seq<Finding>, run: nat, c: FindingColumn)
    requires forall i | 0 <= i < |rows| && rows[i].run == run :: rows[i].rule in rules <==> Matches(c, rows[i])
    ensures SumOver(rules, rows, run) == Count(rows, run, c)
  {
    if rows == [] {
      SumNothing(rules, run);
    } else {
      var n := |rows| - 1;
      var f := rows[n];
      assert rows == rows[..n] + [f];
      SumIsCount(rules, rows[..n], run, c);
      if f.run == run && f.rule in rules {
        SumSplit(rules, f.rule, rows, run);
        SumSplit(rules, f.rule, rows[..n], run);
        CountAppend(rows[..n], f, run, OfRule(f.rule));
        SumUnaffected(rules - {f.rule}, rows[..n], f, run);
      } else {
        SumUnaffected(rules, rows[..n], f, run);
      }
    }
  }
}
