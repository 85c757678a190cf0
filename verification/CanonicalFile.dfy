/** canonical/servers.jsonl: sorting and grouping the records, and validating the file line by line. */
module CanonicalFile {
  import opened Bytes
  import opened Wrappers
  import opened Record
  import opened WriterValidator
  import opened Page
  import JsonRoundTrip

  /** The comparison of (identity, line) pairs. */
  predicate Before(a: Stored, b: Stored) {
    Less(a.identity, b.identity) || (a.identity == b.identity && Less(a.line, b.line))
  }

  ghost predicate Sorted(s: seq<Stored>) {
    forall i, j | 0 <= i < j < |s| :: s[i] == s[j] || Before(s[i], s[j])
  }

  lemma BeforeTransitive(a: Stored, b: Stored, c: Stored)
    requires Before(a, b) && Before(b, c)
    ensures Before(a, c)
  {
    if Less(a.identity, b.identity) && Less(b.identity, c.identity) {
      LessTransitive(a.identity, b.identity, c.identity);
    } else if a.identity == b.identity == c.identity {
      LessTransitive(a.line, b.line, c.line);
    }
  }

  lemma BeforeTotal(a: Stored, b: Stored)
    ensures a == b || Before(a, b) || Before(b, a)
  {
    LessTotal(a.identity, b.identity);
    LessTotal(a.line, b.line);
  }

  function Insert(s: seq<Stored>, r: Stored): seq<Stored> {
    if s == [] || Before(r, s[0]) then [r] + s else [s[0]] + Insert(s[1..], r)
  }

  lemma FirstSorts(s: seq<Stored>, r: Stored)
    requires Sorted(s) && s != [] && Before(r, s[0])
    ensures Sorted([r] + s)
  {
    var t := [r] + s;
    forall i, j | 0 <= i < j < |t| ensures t[i] == t[j] || Before(t[i], t[j]) {
      if i == 0 && j > 1 && s[0] != t[j] { BeforeTransitive(r, s[0], t[j]); }
    }
  }

  lemma {:induction false} InsertKeeps(s: seq<Stored>, r: Stored)
    ensures multiset(Insert(s, r)) == multiset(s) + multiset{r}
  {
    if s != [] && !Before(r, s[0]) {
      assert s == [s[0]] + s[1..];
      InsertKeeps(s[1..], r);
    }
  }

  lemma LaterSorts(first: Stored, tail: seq<Stored>)
    requires Sorted(tail) && forall x | x in tail :: first == x || Before(first, x)
    ensures Sorted([first] + tail)
  {
    var t := [first] + tail;
    forall i, j | 0 <= i < j < |t| ensures t[i] == t[j] || Before(t[i], t[j]) {
      if i == 0 { assert tail[j - 1] in tail; }
    }
  }

  lemma {:induction false} InsertSorts(s: seq<Stored>, r: Stored)
    requires Sorted(s)
    ensures Sorted(Insert(s, r))
  {
    if s == [] {
    } else if Before(r, s[0]) {
      FirstSorts(s, r);
    } else {
      BeforeTotal(r, s[0]);
      assert forall i | 0 <= i < |s[1..]| :: s[1..][i] == s[i + 1];
      InsertSorts(s[1..], r);
      InsertKeeps(s[1..], r);
      forall x | x in Insert(s[1..], r) ensures s[0] == x || Before(s[0], x) {
        assert x in multiset(Insert(s[1..], r));
        if x != r {
          var i :| 0 <= i < |s[1..]| && s[1..][i] == x;
          assert s[i + 1] == x;
        }
      }
      LaterSorts(s[0], Insert(s[1..], r));
    }
  }

  /** Stands for std::sort: any arrangement in this order is the same one. */
  method Sort(records: seq<Stored>) returns (r: seq<Stored>)
    ensures Sorted(r) && multiset(r) == multiset(records)
  {
    r := [];
    var i := 0;
    while i < |records|
      invariant 0 <= i <= |records|
      invariant Sorted(r) && multiset(r) == multiset(records[..i])
    {
      InsertSorts(r, records[i]);
      InsertKeeps(r, records[i]);
      r := Insert(r, records[i]);
      assert records[..i + 1] == records[..i] + [records[i]];
      i := i + 1;
    }
    assert records[..i] == records;
  }

  /** No identity occurs with two different lines. */
  ghost predicate Consistent(records: seq<Stored>) {
    forall a, b | a in records && b in records && a.identity == b.identity :: a.line == b.line
  }

  ghost function Identities(records: seq<Stored>): set<bytes> {
    set r | r in records :: r.identity
  }

  ghost function LineFor(records: seq<Stored>, identity: bytes): (line: bytes)
    requires identity in Identities(records)
    ensures Stored(identity, line) in records
  {
    var r :| r in records && r.identity == identity;
    r.line
  }

  ghost function LinesFor(records: seq<Stored>, ids: seq<bytes>): bytes
    requires forall id | id in ids :: id in Identities(records)
  {
    if ids == [] then [] else LinesFor(records, ids[..|ids| - 1]) + LineFor(records, ids[|ids| - 1])
  }

  /** One line for every identity, in ascending order of identity. */
  ghost function CanonicalText(records: seq<Stored>): bytes {
    LinesFor(records, InOrder(Identities(records)))
  }

  lemma {:induction false} SameLines(a: seq<Stored>, b: seq<Stored>, ids: seq<bytes>)
    requires Consistent(a) && (forall r :: r in a <==> r in b)
    requires forall id | id in ids :: id in Identities(a)
    ensures forall id | id in ids :: id in Identities(b)
    ensures LinesFor(a, ids) == LinesFor(b, ids)
    decreases |ids|
  {
    assert Identities(a) == Identities(b);
    if ids != [] {
      var last := ids[|ids| - 1];
      assert Stored(last, LineFor(b, last)) in a;
      SameLines(a, b, ids[..|ids| - 1]);
    }
  }

  /** Page order and record order do not matter. */
  lemma OrderIrrelevant(a: seq<Stored>, b: seq<Stored>)
    requires multiset(a) == multiset(b)
    ensures Consistent(a) <==> Consistent(b)
    ensures Identities(a) == Identities(b)
    ensures Consistent(a) ==> CanonicalText(a) == CanonicalText(b)
  {
    forall r ensures r in a <==> r in b { assert r in multiset(a) <==> r in multiset(b); }
    assert Identities(a) == Identities(b);
    if Consistent(a) { SameLines(a, b, InOrder(Identities(a))); }
  }

  /** The grouping loop's outcome: the file and the number of distinct identities, or the conflict exit. */
  method Canonicalize(records: seq<Stored>) returns (r: Outcome<(bytes, nat), ()>)
    ensures r == (if Consistent(records) then Ok((CanonicalText(records), |Identities(records)|)) else Err(()))
  {
    var sorted := Sort(records);
    OrderIrrelevant(sorted, records);
    var canonical: bytes := [];
    var unique := 0;
    ghost var ids: seq<bytes> := [];
    var index := 0;
    while index < |sorted|
      invariant 0 <= index <= |sorted|
      invariant Grouped(sorted, index, ids)
      invariant canonical == LinesFor(sorted, ids) && unique == |ids|
    {
      var end := index + 1;
      while end < |sorted| && sorted[end].identity == sorted[index].identity
        invariant index < end <= |sorted|
        invariant forall i | index <= i < end :: sorted[i] == sorted[index]
      {
        if sorted[end].line != sorted[index].line {
          assert sorted[end] in sorted && sorted[index] in sorted;
          return Err(());
        }
        end := end + 1;
      }
      GroupAdded(sorted, index, end, ids);
      canonical := canonical + sorted[index].line;
      unique := unique + 1;
      ghost var more := ids + [sorted[index].identity];
      assert more[..|more| - 1] == ids;
      assert sorted[index] in sorted;
      ids := more;
      index := end;
    }
    GroupedAll(sorted, ids);
    return Ok((canonical, unique));
  }

  /** The records before index are exactly those of the listed identities, one line each, and none of them comes later. */
  ghost predicate Grouped(sorted: seq<Stored>, index: nat, ids: seq<bytes>) {
    && index <= |sorted| && Ascending(ids)
    && (forall id :: id in ids <==> id in Identities(sorted[..index]))
    && (forall id | id in ids :: id in Identities(sorted))
    && (forall i, j | 0 <= i < index <= j < |sorted| :: Less(sorted[i].identity, sorted[j].identity))
    && (forall i | 0 <= i < index :: sorted[i].line == LineFor(sorted, sorted[i].identity))
  }

  lemma GroupIdentities(sorted: seq<Stored>, index: nat, end: nat, ids: seq<bytes>)
    requires index < end <= |sorted| && forall i | index <= i < end :: sorted[i] == sorted[index]
    requires forall x :: x in ids <==> x in Identities(sorted[..index])
    ensures forall x :: x in ids + [sorted[index].identity] <==> x in Identities(sorted[..end])
  {
    var id := sorted[index].identity;
    forall x ensures x in ids + [id] <==> x in Identities(sorted[..end]) {
      if x in ids {
        var y :| y in sorted[..index] && y.identity == x;
        assert y in sorted[..end];
      }
      if x == id { assert sorted[..end][index] == sorted[index]; }
      if x in Identities(sorted[..end]) {
        var y :| y in sorted[..end] && y.identity == x;
        var i :| 0 <= i < end && sorted[i] == y;
        if i < index { assert sorted[..index][i] == y; }
      }
    }
  }

  lemma GroupAdded(sorted: seq<Stored>, index: nat, end: nat, ids: seq<bytes>)
    requires Sorted(sorted) && Grouped(sorted, index, ids)
    requires index < end <= |sorted| && forall i | index <= i < end :: sorted[i] == sorted[index]
    requires end < |sorted| ==> sorted[end].identity != sorted[index].identity
    ensures Grouped(sorted, end, ids + [sorted[index].identity])
    ensures sorted[index].line == LineFor(sorted, sorted[index].identity)
  {
    var id := sorted[index].identity;
    assert sorted[index] in sorted;
    forall i, j | 0 <= i < end <= j < |sorted| ensures Less(sorted[i].identity, sorted[j].identity) {
      if i >= index {
        assert Less(sorted[index].identity, sorted[end].identity);
        if j > end && sorted[end] != sorted[j] && sorted[end].identity != sorted[j].identity {
          LessTransitive(sorted[index].identity, sorted[end].identity, sorted[j].identity);
        }
      }
    }
    var r := Stored(id, LineFor(sorted, id));
    var k :| 0 <= k < |sorted| && sorted[k] == r;
    LessIrreflexive(id);
    assert index <= k < end;
    var more := ids + [id];
    GroupIdentities(sorted, index, end, ids);
    forall i, j | 0 <= i < j < |more| ensures Less(more[i], more[j]) {
      if j == |ids| {
        assert more[i] in ids;
        var y :| y in sorted[..index] && y.identity == more[i];
      }
    }
  }

  lemma GroupedAll(sorted: seq<Stored>, ids: seq<bytes>)
    requires Grouped(sorted, |sorted|, ids)
    ensures Consistent(sorted)
    ensures ids == InOrder(Identities(sorted)) && |ids| == |Identities(sorted)|
  {
    assert sorted[..|sorted|] == sorted;
    InOrderUnique(ids, Identities(sorted));
    InOrderLength(Identities(sorted));
    forall a, b | a in sorted && b in sorted && a.identity == b.identity ensures a.line == b.line {
      var i :| 0 <= i < |sorted| && sorted[i] == a;
      var j :| 0 <= j < |sorted| && sorted[j] == b;
    }
  }

  lemma {:induction false} InOrderLength(keys: set<bytes>)
    ensures |InOrder(keys)| == |keys|
  {
    if keys != {} { InOrderLength(keys - {Least(keys)}); }
  }

  // Reading the file back.

  /** std::getline over the whole file: a newline at the end starts no further line. */
  function Lines(text: bytes): seq<bytes>
    decreases |text|
  {
    if text == [] then []
    else
      var n := LineLength(text);
      [text[..n]] + (if n == |text| then [] else Lines(text[n + 1..]))
  }

  function LineLength(text: bytes): (n: nat)
    ensures n <= |text|
  {
    if text == [] || text[0] == NEWLINE then 0 else 1 + LineLength(text[1..])
  }

  datatype FileError = BadLine(line: nat, error: LineError) | NotOrdered(line: nat)

  /** The checks on one line, as a function value. */
  type Check = bytes -> Outcome<bytes, LineError>

  /** The validator's checks. */
  ghost function Validator(sha: Sha): Check { (line: bytes) => LineIdentity(line, sha) }

  /** What the checks on each line give. */
  ghost function Outcomes(lines: seq<bytes>, check: Check): (r: seq<Outcome<bytes, LineError>>)
    ensures |r| == |lines|
  {
    if lines == [] then [] else [check(lines[0])] + Outcomes(lines[1..], check)
  }

  /** The validator's pass over the lines, given the previous identity and the number of lines already read. */
  ghost function Pass(outcomes: seq<Outcome<bytes, LineError>>, previous: bytes, count: nat): Outcome<nat, FileError>
    decreases |outcomes|
  {
    if outcomes == [] then Ok(count)
    else
      match outcomes[0]
      case Err(e) => Err(BadLine(count + 1, e))
      case Ok(identity) =>
        if previous != [] && (identity == previous || Less(identity, previous)) then Err(NotOrdered(count + 1))
        else Pass(outcomes[1..], identity, count + 1)
  }

  ghost function CheckLines(lines: seq<bytes>, previous: bytes, count: nat, sha: Sha): Outcome<nat, FileError> {
    Pass(Outcomes(lines, Validator(sha)), previous, count)
  }

  method ReadLine(text: bytes, position: nat) returns (line: bytes, next: nat)
    requires position < |text|
    ensures line == text[position..][..LineLength(text[position..])]
    ensures position < next <= |text| + 1
    ensures next == position + LineLength(text[position..]) + 1
  {
    var end := position;
    while end < |text| && text[end] != NEWLINE
      invariant position <= end <= |text|
      invariant LineLength(text[position..]) == end - position + LineLength(text[end..])
    {
      assert text[end..][1..] == text[end + 1..];
      end := end + 1;
    }
    line := text[position..end];
    next := end + 1;
  }

  function BehindLine(rest: bytes): bytes {
    if LineLength(rest) == |rest| then [] else rest[LineLength(rest) + 1..]
  }

  /** What the validator does with the first line of a text. */
  ghost function AfterLine(outcome: Outcome<bytes, LineError>, rest: bytes, previous: bytes, count: nat, sha: Sha): Outcome<nat, FileError> {
    if outcome.Err? then Err(BadLine(count + 1, outcome.error))
    else if previous != [] && (outcome.value == previous || Less(outcome.value, previous)) then Err(NotOrdered(count + 1))
    else CheckLines(Lines(BehindLine(rest)), outcome.value, count + 1, sha)
  }

  lemma CheckStep(rest: bytes, previous: bytes, count: nat, sha: Sha)
    requires rest != []
    ensures CheckLines(Lines(rest), previous, count, sha) ==
            AfterLine(LineIdentity(rest[..LineLength(rest)], sha), rest, previous, count, sha)
  {
    var n := LineLength(rest);
    var lines := Lines(rest);
    assert lines[0] == rest[..n];
    assert lines[1..] == Lines(BehindLine(rest));
    assert Outcomes(lines, Validator(sha))[1..] == Outcomes(lines[1..], Validator(sha));
  }

  function BehindAt(text: bytes, next: nat): nat { if next > |text| then |text| else next }

  lemma BehindIs(text: bytes, position: nat)
    requires position < |text|
    ensures BehindLine(text[position..]) == text[BehindAt(text, position + LineLength(text[position..]) + 1)..]
  {}

  ghost predicate Checks(check: Check, sha: Sha) {
    forall line: bytes {:trigger LineIdentity(line, sha)} :: check(line) == LineIdentity(line, sha)
  }

  lemma StepAs(rest: bytes, previous: bytes, count: nat, sha: Sha, check: Check)
    requires rest != [] && Checks(check, sha)
    ensures CheckLines(Lines(rest), previous, count, sha) == AfterLine(check(rest[..LineLength(rest)]), rest, previous, count, sha)
  {
    CheckStep(rest, previous, count, sha);
    assert check(rest[..LineLength(rest)]) == LineIdentity(rest[..LineLength(rest)], sha);
  }

  method ValidateAs(line: bytes, sha: Sha, ghost check: Check) returns (r: Outcome<bytes, LineError>)
    requires Checks(check, sha)
    ensures r == check(line)
  {
    r := ValidateLine(line, sha);
  }

  /** Does checking the rest of the file, behind an identity and a number of lines, give the result? */
  type Left = (bytes, bytes, nat) -> bool

  ghost predicate Leaves(left: Left, sha: Sha, result: Outcome<nat, FileError>) {
    forall rest: bytes, previous: bytes, count: nat {:trigger CheckLines(Lines(rest), previous, count, sha)} ::
      left(rest, previous, count) <==> CheckLines(Lines(rest), previous, count, sha) == result
  }

  ghost function LeftOf(sha: Sha, result: Outcome<nat, FileError>): (left: Left)
    ensures Leaves(left, sha, result)
  {
    (rest: bytes, previous: bytes, count: nat) => CheckLines(Lines(rest), previous, count, sha) == result
  }

  /** What follows one line: the result, or what is left behind it. */
  lemma LeftStep(rest: bytes, previous: bytes, count: nat, sha: Sha, check: Check, left: Left, result: Outcome<nat, FileError>)
    requires rest != [] && Checks(check, sha) && Leaves(left, sha, result) && left(rest, previous, count)
    ensures var outcome := check(rest[..LineLength(rest)]);
            if outcome.Err? then result == Err(BadLine(count + 1, outcome.error))
            else if previous != [] && (outcome.value == previous || Less(outcome.value, previous)) then result == Err(NotOrdered(count + 1))
            else left(BehindLine(rest), outcome.value, count + 1)
  {
    StepAs(rest, previous, count, sha, check);
  }

  lemma NothingLeft(previous: bytes, count: nat, sha: Sha, left: Left, result: Outcome<nat, FileError>)
    requires Leaves(left, sha, result) && left([], previous, count)
    ensures result == Ok(count)
  {
    assert CheckLines(Lines([]), previous, count, sha) == Ok(count);
  }

  method ValidateNext(
      text: bytes, position: nat, previous: bytes, count: nat, sha: Sha,
      ghost check: Check, ghost left: Left, ghost result: Outcome<nat, FileError>)
    returns (error: Option<FileError>, next: nat, identity: bytes)
    requires position < |text| && Checks(check, sha) && Leaves(left, sha, result) && left(text[position..], previous, count)
    ensures error.Some? ==> result == Err(error.value)
    ensures error.None? ==> position < next <= |text| && left(text[next..], identity, count + 1)
  {
    LeftStep(text[position..], previous, count, sha, check, left, result);
    BehindIs(text, position);
    var line, behind := ReadLine(text, position);
    var outcome := ValidateAs(line, sha, check);
    error, next, identity := None, BehindAt(text, behind), [];
    if outcome.Err? {
      error := Some(BadLine(count + 1, outcome.error));
    } else if previous != [] && (outcome.value == previous || Less(outcome.value, previous)) {
      error := Some(NotOrdered(count + 1));
    } else {
      identity := outcome.value;
    }
  }

  /** The canonical part of validate_bundle: the number of records, or the first thing wrong. */
  method ValidateCanonical(text: bytes, sha: Sha) returns (r: Outcome<nat, FileError>)
    ensures r == CheckLines(Lines(text), [], 0, sha)
  {
    ghost var result := CheckLines(Lines(text), [], 0, sha);
    r := ValidateLoop(text, sha, Validator(sha), LeftOf(sha, result), result);
  }

  method ValidateLoop(text: bytes, sha: Sha, ghost check: Check, ghost left: Left, ghost result: Outcome<nat, FileError>)
    returns (r: Outcome<nat, FileError>)
    requires Checks(check, sha) && Leaves(left, sha, result) && left(text, [], 0)
    ensures r == result
  {
    var position, count := 0, 0;
    var previous: bytes := [];
    assert text[0..] == text;
    while position < |text|
      invariant 0 <= position <= |text|
      invariant left(text[position..], previous, count)
    {
      var error, next, identity := ValidateNext(text, position, previous, count, sha, check, left, result);
      if error.Some? { return Err(error.value); }
      position, previous, count := next, identity, count + 1;
    }
    assert text[position..] == [];
    NothingLeft(previous, count, sha, left, result);
    return Ok(count);
  }

  // The file written is the file validated.

  lemma {:induction false} OneLine(line: bytes, rest: bytes)
    requires NEWLINE !in line
    ensures LineLength(line + [NEWLINE] + rest) == |line|
  {
    if line != [] {
      assert (line + [NEWLINE] + rest)[1..] == line[1..] + [NEWLINE] + rest;
      OneLine(line[1..], rest);
    } else {
      assert line + [NEWLINE] + rest == [NEWLINE] + rest;
    }
  }

  lemma FirstLine(line: bytes, rest: bytes)
    requires NEWLINE !in line
    ensures Lines(line + [NEWLINE] + rest) == [line] + Lines(rest)
  {
    var text := line + [NEWLINE] + rest;
    OneLine(line, rest);
    assert text[..|line|] == line && text[|line| + 1..] == rest;
  }

  /** The lines, each with a newline behind it. */
  function Terminated(lines: seq<bytes>): bytes {
    if lines == [] then [] else lines[0] + [0x0A] + Terminated(lines[1..])
  }

  /** Lines without newlines, of which the last one may lack its terminator unless it is empty. */
  ghost predicate LinesOf(lines: seq<bytes>, text: bytes) {
    && (forall i | 0 <= i < |lines| :: 0x0A !in lines[i])
    && (text == Terminated(lines) || (lines != [] && LastOpen(lines, text)))
  }

  predicate LastOpen(lines: seq<bytes>, text: bytes)
    requires lines != []
  {
    lines[|lines| - 1] != [] && text == Terminated(lines[..|lines| - 1]) + lines[|lines| - 1]
  }

  lemma TextOfFirst(lines: seq<bytes>, text: bytes)
    requires |lines| > 1 && LastOpen(lines, text)
    ensures text == lines[0] + [0x0A] + (Terminated(lines[1..][..|lines| - 2]) + lines[|lines| - 1])
  {
    var n := |lines| - 1;
    assert lines[..n][0] == lines[0] && lines[..n][1..] == lines[1..][..n - 1];
    Regrouped(lines[0] + [0x0A], Terminated(lines[1..][..n - 1]), lines[n]);
  }

  lemma Regrouped(a: bytes, b: bytes, c: bytes)
    ensures a + b + c == a + (b + c)
  {}

  lemma LastLine(text: bytes)
    requires text != [] && NEWLINE !in text
    ensures Lines(text) == [text]
  {
    NoNewline(text);
    assert text[..|text|] == text;
  }

  lemma {:induction false} NoNewline(text: bytes)
    requires NEWLINE !in text
    ensures LineLength(text) == |text|
  {
    if text != [] { NoNewline(text[1..]); }
  }

  lemma {:induction false} LinesComplete(lines: seq<bytes>, text: bytes)
    requires LinesOf(lines, text)
    ensures Lines(text) == lines
  {
    if lines != [] {
      assert forall i | 0 <= i < |lines[1..]| :: lines[1..][i] == lines[i + 1];
      if text == Terminated(lines) {
        LinesComplete(lines[1..], Terminated(lines[1..]));
        FirstLine(lines[0], Terminated(lines[1..]));
        assert lines == [lines[0]] + lines[1..];
      } else if |lines| == 1 {
        assert lines[..0] == [] && text == [] + lines[0] == lines[0];
        LastLine(text);
      } else {
        var rest := Terminated(lines[1..][..|lines| - 2]) + lines[|lines| - 1];
        TextOfFirst(lines, text);
        assert LastOpen(lines[1..], rest);
        LinesComplete(lines[1..], rest);
        FirstLine(lines[0], rest);
        assert lines == [lines[0]] + lines[1..];
      }
    }
  }

  lemma {:induction false} FirstNewline(text: bytes)
    ensures var n := LineLength(text); 0x0A !in text[..n] && (n < |text| ==> text[n] == 0x0A)
  {
    if text != [] && text[0] != NEWLINE {
      FirstNewline(text[1..]);
      var n := LineLength(text);
      assert text[..n] == [text[0]] + text[1..][..n - 1];
    }
  }

  lemma {:induction false} LinesSound(text: bytes)
    ensures LinesOf(Lines(text), text)
    decreases |text|
  {
    if text != [] {
      FirstNewline(text);
      var n := LineLength(text);
      var lines := Lines(text);
      if n == |text| {
        assert text[..n] == text && lines == [text];
        OpenLine(text);
      } else {
        LinesSound(text[n + 1..]);
        assert lines[1..] == Lines(text[n + 1..]);
        SplitLine(text, n);
        FirstJoined(lines, text[n + 1..]);
      }
    }
  }

  lemma OpenLine(text: bytes)
    requires text != [] && 0x0A !in text
    ensures LinesOf([text], text)
  {
    assert [text][..0] == [] && Terminated([]) + text == text;
    assert LastOpen([text], text);
  }

  lemma SplitLine(text: bytes, n: nat)
    requires n < |text| && text[n] == 0x0A
    ensures text == text[..n] + [0x0A] + text[n + 1..]
  {}

  lemma FirstJoined(lines: seq<bytes>, rest: bytes)
    requires lines != [] && LinesOf(lines[1..], rest) && 0x0A !in lines[0]
    ensures LinesOf(lines, lines[0] + [0x0A] + rest)
  {
    forall i | 0 <= i < |lines| ensures 0x0A !in lines[i] { if i > 0 { assert lines[i] == lines[1..][i - 1]; } }
    if rest != Terminated(lines[1..]) {
      var n := |lines| - 1;
      assert lines[1..][n - 1] == lines[n];
      assert lines[..n][0] == lines[0] && lines[..n][1..] == lines[1..][..n - 1];
      Regrouped(lines[0] + [0x0A], Terminated(lines[1..][..n - 1]), lines[n]);
    }
  }

  /** Reading a text gives exactly the lines of which it is written. */
  lemma LinesExactly(text: bytes, lines: seq<bytes>)
    ensures Lines(text) == lines <==> LinesOf(lines, text)
  {
    LinesSound(text);
    if LinesOf(lines, text) { LinesComplete(lines, text); }
  }

  /** The lines of the listed identities, without their newlines, before the lines of rest. */
  ghost predicate LinesAre(records: seq<Stored>, ids: seq<bytes>, lines: seq<bytes>) {
    && |lines| == |ids|
    && forall i | 0 <= i < |ids| ::
         ids[i] in Identities(records) && NEWLINE !in lines[i] && LineFor(records, ids[i]) == lines[i] + [NEWLINE]
  }

  lemma JoinLine(before: bytes, line: bytes, rest: bytes)
    ensures before + (line + [NEWLINE]) + rest == before + (line + [NEWLINE] + rest)
  {}

  lemma JoinLines(lines: seq<bytes>, more: seq<bytes>)
    requires lines != []
    ensures lines[..|lines| - 1] + ([lines[|lines| - 1]] + more) == lines + more
  {}

  lemma {:induction false} FileLines(records: seq<Stored>, ids: seq<bytes>, lines: seq<bytes>, rest: bytes)
    requires LinesAre(records, ids, lines)
    ensures forall id | id in ids :: id in Identities(records)
    ensures Lines(LinesFor(records, ids) + rest) == lines + Lines(rest)
    decreases |ids|
  {
    if ids == [] {
      assert [] + rest == rest && lines == [] && [] + Lines(rest) == Lines(rest);
    } else {
      var last := |ids| - 1;
      var line := lines[last];
      FirstLine(line, rest);
      FileLines(records, ids[..last], lines[..last], line + [NEWLINE] + rest);
      JoinLine(LinesFor(records, ids[..last]), line, rest);
      JoinLines(lines, Lines(rest));
    }
  }

  /** Every line accepted, and identities strictly ascending from the previous one on. */
  ghost predicate OrderedAfter(outcomes: seq<Outcome<bytes, LineError>>, previous: bytes) {
    && (forall i | 0 <= i < |outcomes| :: outcomes[i].Ok?)
    && (forall i, j | 0 <= i < j < |outcomes| :: Less(outcomes[i].value, outcomes[j].value))
    && (outcomes != [] && previous != [] ==> Less(previous, outcomes[0].value))
  }

  lemma OrderedTail(outcomes: seq<Outcome<bytes, LineError>>, previous: bytes)
    requires outcomes != [] && outcomes[0].Ok? && outcomes[0].value != []
    ensures OrderedAfter(outcomes, previous) <==>
            OrderedAfter(outcomes[1..], outcomes[0].value) && (previous != [] ==> Less(previous, outcomes[0].value))
  {
    var tail := outcomes[1..];
    assert forall i | 0 < i < |outcomes| :: outcomes[i] == tail[i - 1];
    if OrderedAfter(outcomes, previous) {
      assert forall i | 0 <= i < |tail| :: tail[i] == outcomes[i + 1];
    }
    if OrderedAfter(tail, outcomes[0].value) {
      forall j | 1 < j < |outcomes| ensures Less(outcomes[0].value, outcomes[j].value) {
        assert Less(tail[0].value, tail[j - 1].value);
        LessTransitive(outcomes[0].value, outcomes[1].value, outcomes[j].value);
      }
    }
  }

  /** The pass accepts exactly lines that are all accepted and strictly ascending, and counts them. */
  lemma {:induction false} PassExactly(outcomes: seq<Outcome<bytes, LineError>>, previous: bytes, count: nat)
    requires forall i | 0 <= i < |outcomes| && outcomes[i].Ok? :: outcomes[i].value != []
    ensures Pass(outcomes, previous, count).Ok? <==> OrderedAfter(outcomes, previous)
    ensures Pass(outcomes, previous, count).Ok? ==> Pass(outcomes, previous, count).value == count + |outcomes|
    decreases |outcomes|
  {
    if outcomes != [] && outcomes[0].Ok? {
      var first := outcomes[0].value;
      if previous != [] {
        LessTotal(previous, first);
        if Less(previous, first) { LessAsymmetric(previous, first); }
      }
      OrderedTail(outcomes, previous);
      PassExactly(outcomes[1..], first, count + 1);
    }
  }

  lemma IdentityNotEmpty(line: bytes, sha: Sha)
    ensures LineIdentity(line, sha).Ok? ==> LineIdentity(line, sha).value != []
  {}

  lemma {:induction false} OutcomesAt(lines: seq<bytes>, check: Check)
    ensures forall i | 0 <= i < |lines| :: Outcomes(lines, check)[i] == check(lines[i])
  {
    if lines != [] { OutcomesAt(lines[1..], check); }
  }

  /** A file is accepted exactly when each line is, as some identity, and the identities strictly ascend. */
  lemma ValidExactly(lines: seq<bytes>, sha: Sha)
    ensures CheckLines(lines, [], 0, sha).Ok? <==>
              && (forall i | 0 <= i < |lines| :: LineIdentity(lines[i], sha).Ok?)
              && (forall i, j | 0 <= i < j < |lines| :: Less(LineIdentity(lines[i], sha).value, LineIdentity(lines[j], sha).value))
    ensures CheckLines(lines, [], 0, sha).Ok? ==> CheckLines(lines, [], 0, sha).value == |lines|
  {
    var check := Validator(sha);
    OutcomesAt(lines, check);
    forall i | 0 <= i < |lines| && check(lines[i]).Ok? ensures check(lines[i]).value != [] { IdentityNotEmpty(lines[i], sha); }
    PassExactly(Outcomes(lines, check), [], 0);
    assert forall i | 0 <= i < |lines| :: check(lines[i]) == LineIdentity(lines[i], sha);
  }

  /** The largest line is within the validator's cap. */
  ghost predicate WithinCap(records: seq<Stored>) {
    forall r | r in records :: |r.line| <= MAXIMUM_LINE_BYTES + 1
  }

  /** The record is one line, that the checks accept as its identity or else refuse for its length. */
  ghost predicate IsLine(r: Stored, check: Check) {
    exists line :: LineIs(r, check, line)
  }

  ghost predicate LineIs(r: Stored, check: Check, line: bytes) {
    && r.line == line + [NEWLINE] && NEWLINE !in line && r.identity != []
    && check(line) == (if |r.line| <= MAXIMUM_LINE_BYTES + 1 then Ok(r.identity) else Err(OversizedLine))
  }

  lemma WrittenIsLine(r: Stored, sha: Sha)
    requires Written(r, sha)
    ensures IsLine(r, Validator(sha))
  {
    var entry :| JsonRoundTrip.Printable(entry, ENTRY_DEPTH)
              && RecordOf(entry, sha).Ok?
              && r == Stored(RecordOf(entry, sha).value.identity, RecordOf(entry, sha).value.canonical);
    var line := RecordEndsLine(entry, sha);
    WriterMeetsValidator(entry, sha, line);
    assert LineIs(r, Validator(sha), line);
  }

  /** The listed records' lines, one by one. */
  ghost predicate AreLines(records: seq<Stored>, ids: seq<bytes>, lines: seq<bytes>, check: Check) {
    && LinesAre(records, ids, lines)
    && forall i | 0 <= i < |ids| :: LineIs(Stored(ids[i], LineFor(records, ids[i])), check, lines[i])
  }

  lemma {:induction false} AllLines(records: seq<Stored>, ids: seq<bytes>, check: Check) returns (lines: seq<bytes>)
    requires forall r | r in records :: IsLine(r, check)
    requires forall id | id in ids :: id in Identities(records)
    ensures AreLines(records, ids, lines, check)
    decreases |ids|
  {
    if ids == [] {
      lines := [];
    } else {
      var r := Stored(ids[0], LineFor(records, ids[0]));
      var line :| LineIs(r, check, line);
      var more := AllLines(records, ids[1..], check);
      lines := [line] + more;
      assert ids == [ids[0]] + ids[1..];
      forall i | 0 <= i < |ids|
        ensures ids[i] in Identities(records) && NEWLINE !in lines[i] && LineFor(records, ids[i]) == lines[i] + [NEWLINE]
        ensures LineIs(Stored(ids[i], LineFor(records, ids[i])), check, lines[i])
      {
        if i > 0 { assert ids[i] == ids[1..][i - 1] && lines[i] == more[i - 1]; }
      }
    }
  }

  lemma ListedLines(records: seq<Stored>, ids: seq<bytes>, lines: seq<bytes>)
    requires LinesAre(records, ids, lines)
    ensures forall id | id in ids :: id in Identities(records)
    ensures Lines(LinesFor(records, ids)) == lines
  {
    FileLines(records, ids, lines, []);
    assert LinesFor(records, ids) + [] == LinesFor(records, ids);
    assert lines + Lines([]) == lines;
  }

  ghost predicate AllWritten(records: seq<Stored>, sha: Sha) {
    forall r | r in records :: Written(r, sha)
  }

  /**
   * What collection writes, validation accepts: for records of accepted pages without conflicts the canonical file passes
   * line by line exactly when no line is longer than the validator's cap, and the count is the number of identities.
   */
  lemma WrittenFileValidates(records: seq<Stored>, sha: Sha)
    requires Consistent(records) && AllWritten(records, sha)
    ensures CheckLines(Lines(CanonicalText(records)), [], 0, sha).Ok? <==> WithinCap(records)
    ensures WithinCap(records) ==> CheckLines(Lines(CanonicalText(records)), [], 0, sha) == Ok(|Identities(records)|)
  {
    forall r | r in records ensures IsLine(r, Validator(sha)) { WrittenIsLine(r, sha); }
    LineFileValidates(records, Validator(sha));
  }

  lemma LineFileValidates(records: seq<Stored>, check: Check)
    requires Consistent(records) && forall r | r in records :: IsLine(r, check)
    ensures Pass(Outcomes(Lines(CanonicalText(records)), check), [], 0).Ok? <==> WithinCap(records)
    ensures WithinCap(records) ==> Pass(Outcomes(Lines(CanonicalText(records)), check), [], 0) == Ok(|Identities(records)|)
  {
    var ids := InOrder(Identities(records));
    InOrderLength(Identities(records));
    var lines := AllLines(records, ids, check);
    ListedLines(records, ids, lines);
    AreLinesPass(records, ids, lines, check);
    LongLine(records, ids);
  }

  /** Some record is over the cap exactly when some listed line is. */
  lemma LongLine(records: seq<Stored>, ids: seq<bytes>)
    requires Consistent(records) && forall id :: id in ids <==> id in Identities(records)
    ensures WithinCap(records) <==> forall i | 0 <= i < |ids| :: |LineFor(records, ids[i])| <= MAXIMUM_LINE_BYTES + 1
  {
    forall r | r in records ensures exists i :: 0 <= i < |ids| && r.line == LineFor(records, ids[i]) {
      assert r.identity in ids;
      var i :| 0 <= i < |ids| && ids[i] == r.identity;
      assert Stored(ids[i], LineFor(records, ids[i])) in records;
    }
  }

  lemma AreLinesPass(records: seq<Stored>, ids: seq<bytes>, lines: seq<bytes>, check: Check)
    requires Ascending(ids) && AreLines(records, ids, lines, check)
    ensures Pass(Outcomes(lines, check), [], 0).Ok? <==>
            forall i | 0 <= i < |ids| :: |LineFor(records, ids[i])| <= MAXIMUM_LINE_BYTES + 1
    ensures Pass(Outcomes(lines, check), [], 0).Ok? ==> Pass(Outcomes(lines, check), [], 0).value == |ids|
  {
    OutcomesAt(lines, check);
    forall i | 0 <= i < |ids|
      ensures check(lines[i]) == if |LineFor(records, ids[i])| <= MAXIMUM_LINE_BYTES + 1 then Ok(ids[i]) else Err(OversizedLine)
      ensures ids[i] != []
    {
      assert LineIs(Stored(ids[i], LineFor(records, ids[i])), check, lines[i]);
    }
    PassExactly(Outcomes(lines, check), [], 0);
  }
}
