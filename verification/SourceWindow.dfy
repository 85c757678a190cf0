/** The part of a source file that is shown for a finding. */
module SourceWindow {
  import opened Bytes
  import opened Utf8
  import opened Wrappers

  const NEWLINE: Byte := 0x0A
  const DOTS: bytes := [0x2E, 0x2E, 0x2E]

  datatype Window = Window(
    start: nat, end: nat, startLine: nat, truncatedBefore: bool, truncatedAfter: bool, startsMidLine: bool, endsMidLine: bool)

  function Newlines(s: bytes): nat { if s == [] then 0 else Newlines(s[..|s| - 1]) + if s[|s| - 1] == NEWLINE then 1 else 0 }

  /** std::string::find from a position. */
  function Find(data: bytes, needle: bytes, from: nat): (r: Option<nat>)
    requires from <= |data|
    ensures r.Some? ==> from <= r.value && r.value + |needle| <= |data| && data[r.value..r.value + |needle|] == needle
    decreases |data| - from
  {
    if from + |needle| > |data| then None
    else if data[from..from + |needle|] == needle then Some(from)
    else Find(data, needle, from + 1)
  }

  function NextNewline(data: bytes, from: nat): (n: nat)
    requires from <= |data|
    ensures from <= n <= |data| && (n < |data| ==> data[n] == NEWLINE)
    ensures forall i | from <= i < n :: data[i] != NEWLINE
    decreases |data| - from
  {
    if from == |data| || data[from] == NEWLINE then from else NextNewline(data, from + 1)
  }

  /** Where a line begins, counting lines from 1; the end of the text when there are not that many. */
  function LineStart(data: bytes, line: nat, from: nat, current: nat): (p: nat)
    requires from <= |data|
    ensures from <= p <= |data|
    decreases |data| - from
  {
    if current >= line || from == |data| then from
    else
      var n := NextNewline(data, from);
      if n == |data| then n else LineStart(data, line, n + 1, current + 1)
  }

  function Needle(symbol: bytes, evidence: bytes): bytes {
    var text := if symbol == [] then evidence else symbol;
    if |text| >= 3 && text[|text| - 3..] == DOTS then text[..|text| - 3] else text
  }

  /** The middle of the needle where a line has it, else the middle of the line. */
  function AnchorIn(data: bytes, start: nat, needle: bytes): (a: nat)
    requires start <= |data|
    ensures start <= a <= |data|
  {
    var end := NextNewline(data, start);
    var found := if needle == [] then None else Find(data, needle, start);
    if found.Some? && found.value < end then found.value + |needle| / 2 else start + (end - start) / 2
  }

  /** The position the window is centred on. */
  function Anchor(data: bytes, line: Option<nat>, symbol: bytes, evidence: bytes): (a: nat)
    ensures a <= |data|
  {
    if line.None? then 0 else AnchorIn(data, LineStart(data, line.value, 0, 1), Needle(symbol, evidence))
  }

  /** The window before its ends are moved to character boundaries. */
  function RawWindow(size: nat, anchor: nat, maximum: nat): (w: (nat, nat))
    requires anchor <= size && maximum < size
    ensures w.0 <= w.1 <= size && w.1 - w.0 <= maximum
  {
    var half := maximum / 2;
    var start := if anchor > half then anchor - half else 0;
    var end := if size < start + maximum then size else start + maximum;
    (if end == size && end > maximum then end - maximum else start, end)
  }

  function TrimStart(data: bytes, start: nat, end: nat): (s: nat)
    requires start <= end <= |data|
    ensures start <= s <= end
    decreases end - start
  {
    if start < end && IsContinuation(data[start]) then TrimStart(data, start + 1, end) else start
  }

  function TrimEnd(data: bytes, start: nat, end: nat): (e: nat)
    requires start <= end <= |data|
    ensures start <= e <= end
  {
    if start < end < |data| && IsContinuation(data[end]) then TrimEnd(data, start, end - 1) else end
  }

  function Bounds(data: bytes, anchor: nat, maximum: nat): (w: (nat, nat))
    requires anchor <= |data|
    ensures w.0 <= w.1 <= |data|
  {
    if |data| <= maximum then (0, |data|)
    else
      var (start, end) := RawWindow(|data|, anchor, maximum);
      var trimmed := TrimStart(data, start, end);
      (trimmed, TrimEnd(data, trimmed, end))
  }

  function Shown(data: bytes, start: nat, end: nat): Window
    requires start <= end <= |data|
  {
    Window(start, end, 1 + Newlines(data[..start]), start > 0, end < |data|,
           start > 0 && data[start - 1] != NEWLINE, 0 < end < |data| && data[end - 1] != NEWLINE)
  }

  // Character boundaries.

  predicate Boundary(data: bytes, i: nat) { i == |data| || (i < |data| && !IsContinuation(data[i])) }

  /** Valid text cut at a boundary is valid on both sides. */
  lemma {:induction false} CutValid(s: bytes, i: nat)
    requires Valid(s) && Boundary(s, i)
    ensures Valid(s[..i]) && Valid(s[i..])
  {
    if s == [] || i == 0 {
      assert s[..i] == [] && s[i..] == s;
    } else {
      FirstCharacter(s);
      var n := Announced(s[0]);
      BoundaryBehind(s, i);
      CutValid(s[n..], i - n);
      CutTwice(s, n, i);
      CharacterThenText(s[..n], s[n..][..i - n]);
    }
  }

  lemma BoundaryBehind(s: bytes, i: nat)
    requires Valid(s) && s != [] && 0 < i && Boundary(s, i)
    ensures Announced(s[0]) <= i && Boundary(s[Announced(s[0])..], i - Announced(s[0]))
  {
    var n := Announced(s[0]);
    FirstCharacter(s);
    forall k | 1 <= k < n ensures IsContinuation(s[k]) { assert s[..n][k] == s[k]; }
  }

  lemma CutTwice(s: bytes, n: nat, i: nat)
    requires n <= i <= |s|
    ensures s[n..][i - n..] == s[i..] && s[..i] == s[..n] + s[n..][..i - n]
  {}

  /** No four octets in a row of valid text continue a character. */
  lemma {:induction false} BoundaryNear(s: bytes, i: nat)
    requires Valid(s) && i + 4 <= |s|
    ensures !(IsContinuation(s[i]) && IsContinuation(s[i + 1]) && IsContinuation(s[i + 2]) && IsContinuation(s[i + 3]))
  {
    var n := Announced(s[0]);
    if i >= n {
      BoundaryNear(s[n..], i - n);
    } else if i > 0 {
      assert s[n..][0] == s[n];
      assert Announced(s[n]) > 0;
    }
  }

  lemma TrimStartNear(data: bytes, start: nat, end: nat)
    requires Valid(data) && start <= end <= |data|
    ensures TrimStart(data, start, end) <= start + 3
    ensures TrimStart(data, start, end) == end || Boundary(data, TrimStart(data, start, end))
  {
    if start + 4 <= |data| { BoundaryNear(data, start); }
    TrimStartStops(data, start, end);
  }

  lemma {:induction false} TrimStartStops(data: bytes, start: nat, end: nat)
    requires start <= end <= |data|
    ensures TrimStart(data, start, end) == end || Boundary(data, TrimStart(data, start, end))
    ensures forall i | start <= i < TrimStart(data, start, end) :: IsContinuation(data[i])
    decreases end - start
  {
    if start < end && IsContinuation(data[start]) { TrimStartStops(data, start + 1, end); }
  }

  lemma TrimEndNear(data: bytes, start: nat, end: nat)
    requires Valid(data) && start <= end <= |data|
    ensures end <= TrimEnd(data, start, end) + 3
    ensures TrimEnd(data, start, end) == start || Boundary(data, TrimEnd(data, start, end))
  {
    TrimEndStops(data, start, end);
    if TrimEnd(data, start, end) + 4 <= end { BoundaryNear(data, end - 3); }
  }

  lemma {:induction false} TrimEndStops(data: bytes, start: nat, end: nat)
    requires start <= end <= |data|
    ensures TrimEnd(data, start, end) == start || Boundary(data, TrimEnd(data, start, end))
    ensures forall i | TrimEnd(data, start, end) < i <= end :: i < |data| && IsContinuation(data[i])
  {
    if start < end < |data| && IsContinuation(data[end]) { TrimEndStops(data, start, end - 1); }
  }

  // What the window guarantees.

  /** The window of valid text is valid, no longer than asked, and each end moved by at most three octets. */
  lemma WindowValid(data: bytes, anchor: nat, maximum: nat)
    requires Valid(data) && anchor <= |data|
    ensures var (start, end) := Bounds(data, anchor, maximum);
            && Valid(data[start..end]) && end - start <= maximum
            && (|data| > maximum ==>
                  var (s, e) := RawWindow(|data|, anchor, maximum); s <= start <= s + 3 && e - 3 <= end <= e)
  {
    var (start, end) := Bounds(data, anchor, maximum);
    if |data| <= maximum {
      assert data[start..end] == data;
    } else {
      var (s, e) := RawWindow(|data|, anchor, maximum);
      TrimStartNear(data, s, e);
      TrimEndNear(data, start, e);
      BetweenBoundaries(data, start, end);
    }
  }

  lemma BetweenBoundaries(data: bytes, start: nat, end: nat)
    requires Valid(data) && start <= end <= |data|
    requires start == end || (Boundary(data, start) && Boundary(data, end))
    ensures Valid(data[start..end])
  {
    if start < end {
      CutValid(data, end);
      CutValid(data[..end], start);
      assert data[..end][start..] == data[start..end];
    } else {
      assert data[start..end] == [];
    }
  }

  ghost predicate Keeps(data: bytes, anchor: nat, maximum: nat)
    requires anchor <= |data|
  {
    var (start, end) := Bounds(data, anchor, maximum);
    start <= anchor <= end
  }

  ghost predicate AlwaysKeeps(maximum: nat) {
    forall data, line, symbol, evidence | Valid(data) :: Keeps(data, Anchor(data, line, symbol, evidence), maximum)
  }

  lemma KeptFromSix(data: bytes, anchor: nat, maximum: nat)
    requires Valid(data) && anchor <= |data| && maximum >= 6
    ensures Keeps(data, anchor, maximum)
  {
    if |data| > maximum {
      var (s, e) := RawWindow(|data|, anchor, maximum);
      TrimStartNear(data, s, e);
      TrimEndNear(data, TrimStart(data, s, e), e);
    }
  }

  /** One four-octet character, with ASCII behind it. */
  function Sample(tail: nat): bytes { [0xF0, 0x9F, 0x98, 0x80] + seq(tail, _ => 0x41) }

  lemma SampleValid(tail: nat)
    ensures Valid(Sample(tail))
  {
    var s := Sample(tail);
    assert Bits(0xF0, 8) == 0 && Bits(0x9F, 64) == 31 && Bits(0x98, 64) == 24 && Bits(0x80, 64) == 0;
    assert WellFormed(s[..4]);
    ValidAscii(s[4..]);
  }

  lemma SampleAnchor(tail: nat)
    ensures Anchor(Sample(tail), Some(1), [], []) == (4 + tail) / 2
  {
    var s := Sample(tail);
    assert NEWLINE !in s;
    assert NextNewline(s, 0) == |s|;
  }

  /** Below six octets a character can push the window past its anchor. */
  lemma LostBelowSix(maximum: nat)
    requires 1 <= maximum <= 5
    ensures !AlwaysKeeps(maximum)
  {
    var tail := if maximum <= 3 then 0 else 2;
    var s := Sample(tail);
    SampleValid(tail);
    SampleAnchor(tail);
    var anchor := Anchor(s, Some(1), [], []);
    assert |s| == 4 + tail;
    assert IsContinuation(s[1]) && IsContinuation(s[2]) && IsContinuation(s[3]);
    var (start, end) := RawWindow(|s|, anchor, maximum);
    assert 1 <= start <= anchor < end;
    SampleTrim(s, start, anchor, end);
    assert !Keeps(s, anchor, maximum);
  }

  lemma {:induction false} SampleTrim(s: bytes, start: nat, anchor: nat, end: nat)
    requires start <= anchor < end <= |s| && forall i | start <= i <= anchor :: IsContinuation(s[i])
    ensures TrimStart(s, start, end) > anchor
    decreases anchor - start
  {
    if start < anchor { SampleTrim(s, start + 1, anchor, end); }
  }

  /** The anchor stays in the window of every valid text exactly when the window may hold six octets. */
  lemma AnchorKeptExactly(maximum: nat)
    requires maximum >= 1
    ensures AlwaysKeeps(maximum) <==> maximum >= 6
  {
    if maximum >= 6 {
      forall data, line, symbol, evidence | Valid(data) ensures Keeps(data, Anchor(data, line, symbol, evidence), maximum) {
        KeptFromSix(data, Anchor(data, line, symbol, evidence), maximum);
      }
    } else {
      LostBelowSix(maximum);
    }
  }

  // Lines.

  lemma {:induction false} NewlinesConcat(a: bytes, b: bytes)
    ensures Newlines(a + b) == Newlines(a) + Newlines(b)
  {
    if b == [] {
      assert a + b == a;
    } else {
      assert (a + b)[..|a + b| - 1] == a + b[..|b| - 1];
      NewlinesConcat(a, b[..|b| - 1]);
    }
  }

  lemma {:induction false} NoNewlines(s: bytes)
    requires NEWLINE !in s
    ensures Newlines(s) == 0
  {
    if s != [] { NoNewlines(s[..|s| - 1]); }
  }

  lemma OneMoreLine(data: bytes, from: nat, n: nat)
    requires from <= n < |data| && data[n] == NEWLINE && NEWLINE !in data[from..n]
    ensures Newlines(data[..n + 1]) == Newlines(data[..from]) + 1
  {
    assert data[..n] == data[..from] + data[from..n];
    assert data[..n + 1][..n] == data[..n];
    NoNewlines(data[from..n]);
    NewlinesConcat(data[..from], data[from..n]);
  }

  /** A line that exists begins behind as many newlines as there are lines before it; any other is at the end of the text. */
  lemma {:induction false} LineStartCounts(data: bytes, line: nat, from: nat, current: nat)
    requires from <= |data| && Newlines(data[..from]) == current - 1 && 1 <= current <= line
    requires from == 0 || data[from - 1] == NEWLINE
    ensures var p := LineStart(data, line, from, current);
            if Newlines(data) >= line - 1 then Newlines(data[..p]) == line - 1 && (p == 0 || data[p - 1] == NEWLINE)
            else p == |data|
    decreases |data| - from
  {
    var n := NextNewline(data, from);
    if current < line && n < |data| {
      OneMoreLine(data, from, n);
      LineStartCounts(data, line, n + 1, current + 1);
    } else {
      RestOfLines(data, from);
      if current < line { NoNewlines(data[from..]); }
    }
  }

  lemma RestOfLines(data: bytes, from: nat)
    requires from <= |data|
    ensures Newlines(data) == Newlines(data[..from]) + Newlines(data[from..])
  {
    assert data == data[..from] + data[from..];
    NewlinesConcat(data[..from], data[from..]);
  }

  // What the window is centred on.

  predicate OccursAt(data: bytes, needle: bytes, i: nat) { i + |needle| <= |data| && data[i..i + |needle|] == needle }

  /** The search finds the first place, and nothing only if there is none. */
  lemma {:induction false} FindFirst(data: bytes, needle: bytes, from: nat)
    requires from <= |data|
    ensures var r := Find(data, needle, from);
            if r.Some? then r.value >= from && OccursAt(data, needle, r.value) && forall i | from <= i < r.value :: !OccursAt(data, needle, i)
            else forall i: nat | from <= i :: !OccursAt(data, needle, i)
    decreases |data| - from
  {
    if from + |needle| <= |data| && data[from..from + |needle|] != needle { FindFirst(data, needle, from + 1); }
  }

  /** The first place of a text at or behind a position. */
  ghost predicate FirstAt(data: bytes, needle: bytes, from: nat, i: nat) {
    from <= i && OccursAt(data, needle, i) && forall k | from <= k < i :: !OccursAt(data, needle, k)
  }

  /** Half way into the first place of the needle where the line has it whole or begins it, else half way along the line. */
  lemma AnchorInExactly(data: bytes, start: nat, needle: bytes)
    requires start <= |data|
    ensures var end, a := NextNewline(data, start), AnchorIn(data, start, needle);
            && (forall i: nat | needle != [] && FirstAt(data, needle, start, i) && i < end :: a == i + |needle| / 2)
            && ((needle == [] || forall i: nat | start <= i < end :: !OccursAt(data, needle, i)) ==> a == start + (end - start) / 2)
  {
    FindFirst(data, needle, start);
    forall i: nat | FirstAt(data, needle, start, i) ensures Find(data, needle, start) == Some(i) {
      assert OccursAt(data, needle, i);
      FirstIsOne(data, needle, start, Find(data, needle, start).value, i);
    }
  }

  lemma FirstIsOne(data: bytes, needle: bytes, from: nat, i: nat, j: nat)
    requires FirstAt(data, needle, from, i) && FirstAt(data, needle, from, j)
    ensures i == j
  {}

  /** The symbol or, without one, the evidence, short of three dots at its end. */
  lemma NeedleExactly(symbol: bytes, evidence: bytes)
    ensures var text, n := if symbol != [] then symbol else evidence, Needle(symbol, evidence);
            text == n + DOTS || (text == n && !exists before :: text == before + DOTS)
  {
    var text := if symbol != [] then symbol else evidence;
    if before :| text == before + DOTS { DotsAtEnd(text, before); }
    if |text| >= 3 && text[|text| - 3..] == DOTS { assert text == text[..|text| - 3] + DOTS; }
  }

  lemma DotsAtEnd(text: bytes, before: bytes)
    requires text == before + DOTS
    ensures |text| >= 3 && text[|text| - 3..] == DOTS
  {}

  /** The raw window is as long as it may be, and starts half its length before the anchor unless the text's ends are nearer. */
  lemma RawWindowExactly(size: nat, anchor: nat, maximum: nat)
    requires anchor <= size && maximum < size
    ensures var (start, end) := RawWindow(size, anchor, maximum);
            && end == start + maximum
            && (start == anchor - maximum / 2
                || (start == 0 && anchor < maximum / 2) || (start == size - maximum && anchor - maximum / 2 > size - maximum))
  {}

  /** The reported first line is the one the window starts in: every line before it ends before the window. */
  lemma StartLineOfAnchor(data: bytes, start: nat, end: nat, p: nat)
    requires start <= p <= |data| && start <= end <= |data|
    ensures Shown(data, start, end).startLine <= 1 + Newlines(data[..p])
  {
    assert data[..p] == data[..start] + data[start..p];
    NewlinesConcat(data[..start], data[start..p]);
  }

  // The program.

  method FindLine(data: bytes, line: nat) returns (lineStart: nat)
    ensures lineStart == LineStart(data, line, 0, 1)
  {
    var currentLine := 1;
    lineStart := 0;
    while currentLine < line && lineStart < |data|
      invariant lineStart <= |data|
      invariant LineStart(data, line, lineStart, currentLine) == LineStart(data, line, 0, 1)
      decreases |data| - lineStart
    {
      var newline := NextNewline(data, lineStart);
      if newline == |data| { return |data|; }
      lineStart := newline + 1;
      currentLine := currentLine + 1;
    }
  }

  method AnchorInLine(data: bytes, lineStart: nat, needle: bytes) returns (anchor: nat)
    requires lineStart <= |data|
    ensures anchor == AnchorIn(data, lineStart, needle)
  {
    var lineEnd := NextNewline(data, lineStart);
    anchor := lineStart + (lineEnd - lineStart) / 2;
    if needle != [] {
      var found := Find(data, needle, lineStart);
      if found.Some? && found.value < lineEnd { anchor := found.value + |needle| / 2; }
    }
  }

  method FindAnchor(data: bytes, line: Option<nat>, symbol: bytes, evidence: bytes) returns (anchor: nat)
    ensures anchor == Anchor(data, line, symbol, evidence)
  {
    anchor := 0;
    if line.Some? {
      var lineStart := FindLine(data, line.value);
      anchor := AnchorInLine(data, lineStart, Needle(symbol, evidence));
    }
  }

  method CountNewlines(data: bytes, end: nat) returns (n: nat)
    requires end <= |data|
    ensures n == Newlines(data[..end])
  {
    n := 0;
    for i := 0 to end
      invariant n == Newlines(data[..i])
    {
      assert data[..i + 1][..i] == data[..i];
      if data[i] == NEWLINE { n := n + 1; }
    }
  }

  method TrimToCharacters(data: bytes, start: nat, end: nat) returns (displayStart: nat, displayEnd: nat)
    requires start <= end <= |data|
    ensures displayStart == TrimStart(data, start, end) && displayEnd == TrimEnd(data, displayStart, end)
  {
    displayStart, displayEnd := start, end;
    while displayStart < displayEnd && IsContinuation(data[displayStart])
      invariant displayStart <= end
      invariant TrimStart(data, displayStart, end) == TrimStart(data, start, end)
    {
      displayStart := displayStart + 1;
    }
    while displayStart < displayEnd < |data| && IsContinuation(data[displayEnd])
      invariant displayStart <= displayEnd <= |data|
      invariant TrimEnd(data, displayStart, displayEnd) == TrimEnd(data, displayStart, end)
      decreases displayEnd
    {
      displayEnd := displayEnd - 1;
    }
  }

  method CutWindow(data: bytes, anchor: nat, maximum: nat) returns (displayStart: nat, displayEnd: nat)
    requires anchor <= |data|
    ensures (displayStart, displayEnd) == Bounds(data, anchor, maximum)
  {
    displayStart, displayEnd := 0, |data|;
    if |data| > maximum {
      var half := maximum / 2;
      displayStart := if anchor > half then anchor - half else 0;
      displayEnd := if |data| < displayStart + maximum then |data| else displayStart + maximum;
      if displayEnd == |data| && displayEnd > maximum { displayStart := displayEnd - maximum; }
      displayStart, displayEnd := TrimToCharacters(data, displayStart, displayEnd);
    }
  }

  /** The display window of read_finding_source. */
  method DisplayWindow(data: bytes, maximum: nat, line: Option<nat>, symbol: bytes, evidence: bytes) returns (w: Window)
    ensures var (start, end) := Bounds(data, Anchor(data, line, symbol, evidence), maximum);
            w == Shown(data, start, end)
    ensures Described(data[..w.start], data[w.start..w.end], data[w.end..], w)
  {
    var anchor := FindAnchor(data, line, symbol, evidence);
    var displayStart, displayEnd := CutWindow(data, anchor, maximum);
    w := Describe(data, displayStart, displayEnd);
  }

  predicate EndsLine(s: bytes) { s != [] && s[|s| - 1] == NEWLINE }

  /** What a window says of the text before it, in it and behind it. */
  predicate Described(before: bytes, shown: bytes, behind: bytes, w: Window) {
    && w.start == |before| && w.end == |before + shown| && w.startLine == 1 + Newlines(before)
    && (w.truncatedBefore <==> before != []) && (w.truncatedAfter <==> behind != [])
    && (w.startsMidLine <==> before != [] && !EndsLine(before))
    && (w.endsMidLine <==> behind != [] && before + shown != [] && !EndsLine(before + shown))
  }

  method Describe(data: bytes, displayStart: nat, displayEnd: nat) returns (w: Window)
    requires displayStart <= displayEnd <= |data|
    ensures w == Shown(data, displayStart, displayEnd)
    ensures Described(data[..w.start], data[w.start..w.end], data[w.end..], w)
  {
    var newlines := CountNewlines(data, displayStart);
    var truncatedBefore, truncatedAfter := displayStart > 0, displayEnd < |data|;
    return Window(
      displayStart, displayEnd, 1 + newlines, truncatedBefore, truncatedAfter,
      truncatedBefore && data[displayStart - 1] != NEWLINE,
      truncatedAfter && displayEnd > 0 && data[displayEnd - 1] != NEWLINE);
  }
}
