/** The history pass: counters over all observations, and the last two of one target. */
module History {
  import opened Bytes
  import opened Wrappers

  datatype Observation = Observation(target: bytes, observedAt: bytes, body: bytes)

  /** What a line holds, as far as the pass can tell. */
  datatype Line = Blank | Oversized | Unreadable | Record(observation: Observation)

  datatype Limits = Limits(maximumRecords: nat, maximumTargets: nat)

  datatype HistoryError = LineTooLong | TooManyRecords | InvalidObservation | TooManyTargets

  datatype Summary = Summary(records: nat, targets: nat, earliest: bytes, latest: bytes)

  /** Stable insertion by time: behind everything not later. */
  function Place(s: seq<Observation>, o: Observation): (r: seq<Observation>)
    ensures |r| == |s| + 1
  {
    if s == [] || !Less(o.observedAt, s[|s| - 1].observedAt) then s + [o]
    else Place(s[..|s| - 1], o) + [s[|s| - 1]]
  }

  /** The observations in stable order of time. */
  function StableSorted(os: seq<Observation>): (r: seq<Observation>)
    ensures |r| == |os|
  {
    if os == [] then [] else Place(StableSorted(os[..|os| - 1]), os[|os| - 1])
  }

  function Latest(s: seq<Observation>): Option<Observation> { if s == [] then None else Some(s[|s| - 1]) }

  function Previous(s: seq<Observation>): Option<Observation> { if |s| < 2 then None else Some(s[|s| - 2]) }

  ghost predicate InOrderOfTime(s: seq<Observation>) {
    forall i, j | 0 <= i < j < |s| :: !Less(s[j].observedAt, s[i].observedAt)
  }

  function AtTime(s: seq<Observation>, time: bytes): seq<Observation> {
    if s == [] then []
    else AtTime(s[..|s| - 1], time) + if s[|s| - 1].observedAt == time then [s[|s| - 1]] else []
  }

  lemma {:induction false} PlaceKeepsOrder(s: seq<Observation>, o: Observation)
    requires InOrderOfTime(s)
    ensures InOrderOfTime(Place(s, o)) && multiset(Place(s, o)) == multiset(s) + multiset{o}
  {
    if s == [] || !Less(o.observedAt, s[|s| - 1].observedAt) {
      PlacedLast(s, o);
    } else {
      var n := |s| - 1;
      PlaceKeepsOrder(s[..n], o);
      assert s == s[..n] + [s[n]];
      PlacedInside(s, o, Place(s[..n], o));
    }
  }

  lemma PlacedLast(s: seq<Observation>, o: Observation)
    requires InOrderOfTime(s) && (s == [] || !Less(o.observedAt, s[|s| - 1].observedAt))
    ensures InOrderOfTime(s + [o])
  {
    forall i | 0 <= i < |s| ensures !Less(o.observedAt, s[i].observedAt) {
      if i < |s| - 1 && Less(o.observedAt, s[i].observedAt) {
        NotLessChain(s[i].observedAt, s[|s| - 1].observedAt, o.observedAt);
      }
    }
  }

  lemma PlacedInside(s: seq<Observation>, o: Observation, r: seq<Observation>)
    requires s != [] && InOrderOfTime(s) && InOrderOfTime(r) && Less(o.observedAt, s[|s| - 1].observedAt)
    requires multiset(r) == multiset(s[..|s| - 1]) + multiset{o}
    ensures InOrderOfTime(r + [s[|s| - 1]])
  {
    var n := |s| - 1;
    forall i | 0 <= i < |r| ensures !Less(s[n].observedAt, r[i].observedAt) {
      assert r[i] in multiset(r);
      if r[i] == o {
        LessAsymmetric(o.observedAt, s[n].observedAt);
      } else {
        assert r[i] in multiset(s[..n]);
        assert r[i] in s[..n];
      }
    }
  }

  lemma NotLessChain(a: bytes, b: bytes, c: bytes)
    requires !Less(b, a) && !Less(c, b)
    ensures !Less(c, a)
  {
    LessTotal(a, b);
    LessTotal(b, c);
    if Less(c, a) {
      if Less(a, b) { LessTransitive(c, a, b); }
      LessIrreflexive(a);
    }
  }

  /** Stable sorting: ordered by time, a permutation, and equal times keep their order. */
  lemma {:induction false} StableSortedSorts(os: seq<Observation>)
    ensures InOrderOfTime(StableSorted(os)) && multiset(StableSorted(os)) == multiset(os)
  {
    if os != [] {
      var n := |os| - 1;
      StableSortedSorts(os[..n]);
      PlaceKeepsOrder(StableSorted(os[..n]), os[n]);
      assert os == os[..n] + [os[n]];
    }
  }

  lemma {:induction false} PlaceIsStable(s: seq<Observation>, o: Observation, time: bytes)
    requires InOrderOfTime(s)
    ensures AtTime(Place(s, o), time) == AtTime(s, time) + if o.observedAt == time then [o] else []
  {
    if s == [] || !Less(o.observedAt, s[|s| - 1].observedAt) {
      AtTimeAfter(s, o, time);
    } else {
      var n := |s| - 1;
      var r := Place(s[..n], o);
      PlaceIsStable(s[..n], o, time);
      AtTimeAfter(r, s[n], time);
      LessIrreflexive(o.observedAt);
    }
  }

  lemma AtTimeAfter(s: seq<Observation>, o: Observation, time: bytes)
    ensures AtTime(s + [o], time) == AtTime(s, time) + if o.observedAt == time then [o] else []
  {
    assert (s + [o])[..|s|] == s;
  }

  lemma {:induction false} StableSortedIsStable(os: seq<Observation>, time: bytes)
    ensures AtTime(StableSorted(os), time) == AtTime(os, time)
  {
    if os != [] {
      var n := |os| - 1;
      StableSortedIsStable(os[..n], time);
      StableSortedSorts(os[..n]);
      PlaceIsStable(StableSorted(os[..n]), os[n], time);
    }
  }

  /** How one more observation changes the last two. */
  lemma LastTwoAfter(s: seq<Observation>, o: Observation)
    ensures var r := Place(s, o);
            if s == [] || !Less(o.observedAt, s[|s| - 1].observedAt) then Latest(r) == Some(o) && Previous(r) == Latest(s)
            else && Latest(r) == Latest(s)
                 && Previous(r) == if |s| == 1 || !Less(o.observedAt, s[|s| - 2].observedAt) then Some(o) else Previous(s)
  {
    if |s| > 1 { assert s[..|s| - 1][|s| - 2] == s[|s| - 2]; }
  }

  function Seen(os: seq<Observation>, target: bytes): seq<Observation> {
    if os == [] then []
    else Seen(os[..|os| - 1], target) + if os[|os| - 1].target == target then [os[|os| - 1]] else []
  }

  /** Those of one target are picked one by one, in the order in which they come. */
  lemma {:induction false} SeenExactly(a: seq<Observation>, b: seq<Observation>, o: Observation)
    ensures Seen(a + b, o.target) == Seen(a, o.target) + Seen(b, o.target)
    ensures Seen([o], o.target) == [o] && forall t | t != o.target :: Seen([o], t) == []
    decreases |b|
  {
    assert [o][..0] == [];
    if b == [] {
      assert a + b == a && Seen(a, o.target) + [] == Seen(a, o.target);
    } else {
      var n := |b| - 1;
      SeenExactly(a, b[..n], o);
      assert (a + b)[..|a| + n] == a + b[..n] && (a + b)[|a| + n] == b[n];
    }
  }

  /** The last two observations of one target, as they come. */
  class TargetHistory {
    var records: nat
    var latest: Option<Observation>
    var previous: Option<Observation>

    ghost predicate Holds(os: seq<Observation>)
      reads this
    {
      records == |os| && latest == Latest(StableSorted(os)) && previous == Previous(StableSorted(os))
    }

    constructor ()
      ensures Holds([])
    {
      records, latest, previous := 0, None, None;
    }

    /** update_target_history */
    method Update(o: Observation, ghost os: seq<Observation>)
      requires Holds(os)
      modifies this
      ensures Holds(os + [o])
    {
      assert (os + [o])[..|os|] == os;
      LastTwoAfter(StableSorted(os), o);
      records := records + 1;
      if latest.None? || !Less(o.observedAt, latest.value.observedAt) {
        previous := latest;
        latest := Some(o);
      } else if previous.None? || !Less(o.observedAt, previous.value.observedAt) {
        previous := Some(o);
      }
    }
  }

  // The whole pass.

  function Targets(os: seq<Observation>): set<bytes> { set i | 0 <= i < |os| :: os[i].target }

  /** The observations of the lines, in order. */
  function Observations(lines: seq<Line>): seq<Observation> {
    if lines == [] then []
    else Observations(lines[..|lines| - 1]) + if lines[|lines| - 1].Record? then [lines[|lines| - 1].observation] else []
  }

  /** What is wrong with a line, given the observations before it. */
  function LineProblem(line: Line, before: seq<Observation>, limits: Limits): Option<HistoryError> {
    match line
    case Blank => None
    case Oversized => Some(LineTooLong)
    case Unreadable => if |before| >= limits.maximumRecords then Some(TooManyRecords) else Some(InvalidObservation)
    case Record(o) =>
      if |before| >= limits.maximumRecords then Some(TooManyRecords)
      else if o.target !in Targets(before) && |Targets(before)| + 1 > limits.maximumTargets then Some(TooManyTargets)
      else None
  }

  /** No line before the n-th has a problem. */
  ghost predicate CleanUpTo(lines: seq<Line>, n: nat, limits: Limits)
    requires n <= |lines|
  {
    forall i | 0 <= i < n :: LineProblem(lines[i], Observations(lines[..i]), limits) == None
  }

  /** What stops the pass at a line, by kind, with the observations that would be there behind it. */
  lemma ProblemExactly(line: Line, before: seq<Observation>, limits: Limits)
    requires |Targets(before)| <= limits.maximumTargets
    ensures var problem := LineProblem(line, before, limits);
            var full := |before| >= limits.maximumRecords;
            && (problem == Some(LineTooLong) <==> line == Oversized)
            && (problem == Some(TooManyRecords) <==> (line.Unreadable? || line.Record?) && full)
            && (problem == Some(InvalidObservation) <==> line.Unreadable? && !full)
            && (problem == Some(TooManyTargets) <==>
                  line.Record? && !full && |Targets(before + [line.observation])| > limits.maximumTargets)
            && (problem == None <==>
                  || line == Blank
                  || (line.Record? && |before| < limits.maximumRecords && |Targets(before + [line.observation])| <= limits.maximumTargets))
  {
    if line.Record? { OneTarget(before, line.observation); }
  }

  lemma OneTarget(os: seq<Observation>, o: Observation)
    ensures |Targets(os + [o])| == if o.target in Targets(os) then |Targets(os)| else |Targets(os)| + 1
  {
    TargetsGrow(os, o);
    if o.target in Targets(os) { assert Targets(os) + {o.target} == Targets(os); }
  }

  /** Every line is blank or readable. */
  ghost predicate Legible(lines: seq<Line>, n: nat)
    requires n <= |lines|
  {
    forall i | 0 <= i < n :: lines[i].Blank? || lines[i].Record?
  }

  ghost predicate Within(os: seq<Observation>, limits: Limits) {
    |os| <= limits.maximumRecords && |Targets(os)| <= limits.maximumTargets
  }

  /** Nothing stops the pass before a line exactly when every line is blank or readable and both limits hold. */
  lemma {:induction false} CleanExactly(lines: seq<Line>, n: nat, limits: Limits)
    requires n <= |lines|
    ensures CleanUpTo(lines, n, limits) <==> Legible(lines, n) && Within(Observations(lines[..n]), limits)
  {
    if n == 0 {
      NothingSeen(lines, limits);
    } else {
      CleanExactly(lines, n - 1, limits);
      CleanStep(lines, n - 1, limits);
      LegibleStep(lines, n - 1, limits);
      assert n - 1 + 1 == n;
    }
  }

  lemma NothingSeen(lines: seq<Line>, limits: Limits)
    ensures Within(Observations(lines[..0]), limits)
  {
    assert Observations(lines[..0]) == [] && Targets([]) == {};
  }

  lemma LegibleStep(lines: seq<Line>, n: nat, limits: Limits)
    requires n < |lines|
    ensures Legible(lines, n + 1) && Within(Observations(lines[..n + 1]), limits) <==>
            Legible(lines, n) && Within(Observations(lines[..n]), limits) && LineProblem(lines[n], Observations(lines[..n]), limits) == None
  {
    ObservationsGrow(lines, n);
    OneMoreLine(lines[n], Observations(lines[..n]), limits);
    OneMoreLegible(lines, n);
  }

  lemma OneMoreLegible(lines: seq<Line>, n: nat)
    requires n < |lines|
    ensures Legible(lines, n + 1) <==> Legible(lines, n) && (lines[n].Blank? || lines[n].Record?)
  {}

  lemma CleanStep(lines: seq<Line>, n: nat, limits: Limits)
    requires n < |lines|
    ensures CleanUpTo(lines, n + 1, limits) <==> CleanUpTo(lines, n, limits) && LineProblem(lines[n], Observations(lines[..n]), limits) == None
  {
    if CleanUpTo(lines, n + 1, limits) {
      forall i | 0 <= i < n ensures LineProblem(lines[i], Observations(lines[..i]), limits) == None {}
    }
  }

  lemma OneMoreLine(line: Line, before: seq<Observation>, limits: Limits)
    ensures var after := before + if line.Record? then [line.observation] else [];
            (line.Blank? || line.Record?) && Within(after, limits) <==>
            Within(before, limits) && LineProblem(line, before, limits) == None
  {
    assert before + [] == before;
    if line.Record? { OneTarget(before, line.observation); }
    if Within(before, limits) { ProblemExactly(line, before, limits); }
  }

  /** Every line is blank or readable, and both limits hold. */
  ghost predicate Acceptable(lines: seq<Line>, limits: Limits) {
    Legible(lines, |lines|) && Within(Observations(lines), limits)
  }

  lemma AcceptableExactly(lines: seq<Line>, limits: Limits)
    ensures CleanUpTo(lines, |lines|, limits) <==> Acceptable(lines, limits)
  {
    CleanExactly(lines, |lines|, limits);
    assert lines[..|lines|] == lines;
  }

  lemma Stopped(lines: seq<Line>, n: nat, limits: Limits)
    requires n < |lines| && LineProblem(lines[n], Observations(lines[..n]), limits) != None
    ensures !Acceptable(lines, limits)
  {
    AcceptableExactly(lines, limits);
  }

  ghost predicate Extremes(os: seq<Observation>, earliest: bytes, latest: bytes) {
    if os == [] then earliest == [] && latest == []
    else
      && (exists i :: 0 <= i < |os| && os[i].observedAt == earliest) && (exists i :: 0 <= i < |os| && os[i].observedAt == latest)
      && forall i | 0 <= i < |os| :: !Less(os[i].observedAt, earliest) && !Less(latest, os[i].observedAt)
  }

  lemma ExtremesAfter(os: seq<Observation>, earliest: bytes, latest: bytes, o: Observation)
    requires Extremes(os, earliest, latest) && o.observedAt != [] && forall i | 0 <= i < |os| :: os[i].observedAt != []
    ensures Extremes(os + [o],
                     if earliest == [] || Less(o.observedAt, earliest) then o.observedAt else earliest,
                     if latest == [] || Less(latest, o.observedAt) then o.observedAt else latest)
  {
    var more := os + [o];
    var low := if earliest == [] || Less(o.observedAt, earliest) then o.observedAt else earliest;
    var high := if latest == [] || Less(latest, o.observedAt) then o.observedAt else latest;
    assert more[|os|] == o;
    LessIrreflexive(o.observedAt);
    forall i | 0 <= i < |more| ensures !Less(more[i].observedAt, low) && !Less(high, more[i].observedAt) {
      if i < |os| {
        assert more[i] == os[i];
        if Less(os[i].observedAt, o.observedAt) && low == o.observedAt { LessTransitive(os[i].observedAt, o.observedAt, earliest); }
        if Less(o.observedAt, os[i].observedAt) && high == o.observedAt { LessTransitive(latest, o.observedAt, os[i].observedAt); }
      }
    }
    if os != [] {
      var a :| 0 <= a < |os| && os[a].observedAt == earliest;
      var b :| 0 <= b < |os| && os[b].observedAt == latest;
      assert more[a] == os[a] && more[b] == os[b];
    }
  }

  lemma ObservationsGrow(lines: seq<Line>, i: nat)
    requires i < |lines|
    ensures Observations(lines[..i + 1]) == Observations(lines[..i]) + if lines[i].Record? then [lines[i].observation] else []
  {
    assert lines[..i + 1][..i] == lines[..i];
  }

  lemma SeenGrow(os: seq<Observation>, o: Observation, target: bytes)
    ensures Seen(os + [o], target) == if o.target == target then Seen(os, target) + [o] else Seen(os, target)
  {
    assert (os + [o])[..|os|] == os;
  }

  lemma TargetsGrow(os: seq<Observation>, o: Observation)
    ensures Targets(os + [o]) == Targets(os) + {o.target}
  {
    var more := os + [o];
    assert more[|os|] == o && forall i | 0 <= i < |os| :: more[i] == os[i];
  }

  /** The running totals of a pass. */
  class Totals {
    var records: nat
    var targets: set<bytes>
    var earliest: bytes
    var latest: bytes

    ghost predicate Gathered(os: seq<Observation>)
      reads this
    {
      && records == |os| && targets == Targets(os) && Extremes(os, earliest, latest)
      && forall i | 0 <= i < |os| :: os[i].observedAt != []
    }

    constructor ()
      ensures Gathered([])
    {
      records, targets, earliest, latest := 0, {}, [], [];
    }

    method Add(o: Observation, ghost os: seq<Observation>)
      requires Gathered(os) && o.observedAt != []
      modifies this
      ensures Gathered(os + [o])
    {
      ExtremesAfter(os, earliest, latest, o);
      TargetsGrow(os, o);
      records := records + 1;
      if earliest == [] || Less(o.observedAt, earliest) { earliest := o.observedAt; }
      if latest == [] || Less(latest, o.observedAt) { latest := o.observedAt; }
      targets := targets + {o.target};
    }

    /** The checks on one line, in the pass's order. */
    method Check(line: Line, limits: Limits, ghost os: seq<Observation>) returns (problem: Option<HistoryError>)
      requires Gathered(os)
      ensures problem == LineProblem(line, os, limits)
    {
      if line.Blank? { return None; }
      if line.Oversized? { return Some(LineTooLong); }
      if records >= limits.maximumRecords { return Some(TooManyRecords); }
      if line.Unreadable? { return Some(InvalidObservation); }
      var t := line.observation.target;
      if t !in targets && |targets + {t}| > limits.maximumTargets { return Some(TooManyTargets); }
      return None;
    }
  }

  ghost predicate Follows(history: TargetHistory, target: Option<bytes>, os: seq<Observation>)
    reads history
  {
    target.Some? ==> history.Holds(Seen(os, target.value))
  }

  method UpdateTarget(history: TargetHistory, target: Option<bytes>, o: Observation, ghost os: seq<Observation>)
    requires Follows(history, target, os)
    modifies history
    ensures Follows(history, target, os + [o])
  {
    if target.Some? {
      SeenGrow(os, o, target.value);
      if o.target == target.value { history.Update(o, Seen(os, target.value)); }
    }
  }

  lemma CleanGrows(lines: seq<Line>, n: nat, limits: Limits)
    requires n < |lines| && CleanUpTo(lines, n, limits) && LineProblem(lines[n], Observations(lines[..n]), limits) == None
    ensures CleanUpTo(lines, n + 1, limits)
  {}

  /** analyze_history over lines whose observations carry timestamps, as reading an observation ensures. */
  method AnalyzeHistory(lines: seq<Line>, target: Option<bytes>, limits: Limits)
    returns (r: Outcome<Summary, (nat, HistoryError)>, history: TargetHistory)
    requires forall i | 0 <= i < |lines| && lines[i].Record? :: lines[i].observation.observedAt != []
    ensures r.Ok? <==> Acceptable(lines, limits)
    ensures r.Ok? ==>
              var os := Observations(lines);
              && r.value.records == |os| && r.value.targets == |Targets(os)| && Extremes(os, r.value.earliest, r.value.latest)
              && Follows(history, target, os)
    ensures r.Err? ==>
              var (number, error) := r.error;
              && 1 <= number <= |lines| && CleanUpTo(lines, number - 1, limits)
              && LineProblem(lines[number - 1], Observations(lines[..number - 1]), limits) == Some(error)
  {
    history := new TargetHistory();
    var totals := new Totals();
    var number := 0;
    ghost var os: seq<Observation> := [];
    while number < |lines|
      invariant number <= |lines| && CleanUpTo(lines, number, limits) && os == Observations(lines[..number])
      invariant fresh(history) && fresh(totals) && totals.Gathered(os)
      invariant Follows(history, target, os)
    {
      var line := lines[number];
      ObservationsGrow(lines, number);
      var problem := totals.Check(line, limits, os);
      if problem.Some? {
        Stopped(lines, number, limits);
        return Err((number + 1, problem.value)), history;
      }
      CleanGrows(lines, number, limits);
      number := number + 1;
      if line.Record? {
        var o := line.observation;
        totals.Add(o, os);
        UpdateTarget(history, target, o, os);
        os := os + [o];
      }
    }
    assert lines[..|lines|] == lines;
    AcceptableExactly(lines, limits);
    return Ok(Summary(totals.records, |totals.targets|, totals.earliest, totals.latest)), history;
  }
}
