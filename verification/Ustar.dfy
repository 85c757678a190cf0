/** The ustar reader of downloaded packages. */
module Ustar {
  import opened Bytes
  import opened Wrappers

  const BLOCK := 512
  const NUL: Byte := 0x00
  const SPACE: Byte := 0x20
  const SLASH: Byte := 0x2F
  const BACKSLASH: Byte := 0x5C
  const COLON: Byte := 0x3A
  const DOT: Byte := 0x2E

  /** Unsigned 64-bit values: every number the reader stores is one. */
  type Word64 = x: int | 0 <= x < 0x1_0000_0000_0000_0000

  /** The longest byte string that can exist. */
  const MAXIMUM_STRING := 0x7FFF_FFFF_FFFF_FFFF

  datatype Limits = Limits(maximumFiles: Word64, maximumTotal: Word64, maximumFile: Word64)

  datatype Member = Member(path: bytes, typeflag: Byte, size: nat, linkname: bytes, data: bytes, mode: nat)

  datatype TarError =
    | TooManyFiles | AbsolutePath | EmptyPath | ParentPath | BadSize | FileTooLarge | TotalTooLarge | Device | Truncated

  // Octal fields.

  predicate OctalDigit(c: Byte) { 0x30 <= c <= 0x37 }

  /** Whether the text is an octal field, and the value read up to where reading stopped. */
  function Octal(text: bytes, value: nat, saw: bool): (bool, nat) {
    if text == [] then (true, value)
    else if text[0] == NUL || text[0] == SPACE then
      if saw then (true, value) else Octal(text[1..], value, saw)
    else if !OctalDigit(text[0]) then (false, value)
    else Octal(text[1..], 8 * value + (text[0] - 0x30), true)
  }

  function Power8(k: nat): (p: nat)
    ensures p > 0
  {
    if k == 0 then 1 else 8 * Power8(k - 1)
  }

  lemma {:induction false} OctalBound(text: bytes, value: nat, saw: bool)
    ensures Octal(text, value, saw).1 < (value + 1) * Power8(|text|)
  {
    if text != [] {
      var p := Power8(|text| - 1);
      assert (value + 1) * Power8(|text|) == (8 * value + 8) * p;
      if text[0] == NUL || text[0] == SPACE {
        if !saw { OctalBound(text[1..], value, saw); }
        Scaled(value + 1, 8 * value + 8, p);
        Scaled(1, p, value + 1);
      } else if OctalDigit(text[0]) {
        OctalBound(text[1..], 8 * value + (text[0] - 0x30), true);
        Scaled(8 * value + (text[0] - 0x30) + 1, 8 * value + 8, p);
      } else {
        Scaled(1, p, 8 * value + 8);
      }
    }
  }

  lemma Scaled(a: nat, b: nat, p: nat)
    requires a <= b
    ensures a * p <= b * p
  {}

  /** Reading an octal field: twelve characters never reach 2^36, so the shifts lose nothing. */
  method ParseOctal(text: bytes) returns (ok: bool, value: Word64)
    requires |text| <= 12
    ensures (ok, value) == Octal(text, 0, false) && value < 0x10_0000_0000
  {
    value := 0;
    var saw := false;
    assert text[0..] == text;
    TwelveDigits(text);
    for i := 0 to |text|
      invariant Octal(text[i..], value, saw) == Octal(text, 0, false)
      invariant value < Power8(i) && i <= |text|
    {
      var c := text[i];
      assert text[i..][1..] == text[i + 1..] && text[i..][0] == c;
      PowerGrows(i + 1, 12);
      if c == NUL || c == SPACE {
        if saw { return true, value; }
      } else {
        if !OctalDigit(c) { return false, value; }
        saw := true;
        value := 8 * value + (c - 0x30);
      }
    }
    return true, value;
  }

  lemma {:induction false} PowerGrows(i: nat, k: nat)
    requires i <= k
    ensures Power8(i) <= Power8(k) && Power8(12) == 0x10_0000_0000
  {
    if i < k { PowerGrows(i, k - 1); }
    assert Power8(6) == 262144;
  }

  lemma TwelveDigits(text: bytes)
    requires |text| <= 12
    ensures Octal(text, 0, false).1 < 0x10_0000_0000
  {
    OctalBound(text, 0, false);
    PowerGrows(|text|, 12);
  }

  // What an octal field is.

  predicate Padding(s: bytes) { forall i | 0 <= i < |s| :: s[i] == 0x00 || s[i] == 0x20 }

  const OCTAL := Ascii("01234567")

  predicate OctalDigits(s: bytes) { forall i | 0 <= i < |s| :: s[i] in OCTAL }

  /** The value of octal digits, the first one weighing most. */
  function OctalNumber(s: bytes): nat
  {
    if s == [] then 0 else IndexOf(OCTAL, s[0]) * Power8(|s| - 1) + OctalNumber(s[1..])
  }

  /** A field: NULs and spaces, then digits, then nothing or anything behind one more NUL or space. */
  predicate OctalField(text: bytes, from: nat, to: nat) {
    && from <= to <= |text| && Padding(text[..from]) && OctalDigits(text[from..to])
    && (to == |text| || (from < to && Padding([text[to]])))
  }

  lemma OctalDigitExactly(c: Byte)
    ensures OctalDigit(c) <==> c in OCTAL
    ensures OctalDigit(c) ==> IndexOf(OCTAL, c) == c - 0x30
  {
    forall i: nat | i < 8 ensures OCTAL[i] == 0x30 + i { OctalAt(i); }
    InTable(c, OCTAL, 0x30);
  }

  lemma OctalAt(i: nat)
    requires i < 8
    ensures OCTAL[i] == 0x30 + i
  {}

  lemma FirstDigit(text: bytes, to: nat)
    requires 0 < to <= |text| && OctalDigits(text[..to])
    ensures OctalDigit(text[0]) && OctalDigits(text[1..][..to - 1])
    ensures OctalNumber(text[..to]) == (text[0] - 0x30) * Power8(to - 1) + OctalNumber(text[1..][..to - 1])
  {
    var d := text[..to];
    assert d[0] in OCTAL;
    OctalDigitExactly(text[0]);
    assert d[1..] == text[1..][..to - 1];
  }

  lemma {:induction false} DigitsRead(text: bytes, to: nat, value: nat)
    requires to <= |text| && OctalDigits(text[..to]) && (to == |text| || Padding([text[to]]))
    ensures Octal(text, value, true) == (true, value * Power8(to) + OctalNumber(text[..to]))
  {
    if to == 0 {
      if text != [] { assert Padding([text[0]]) ==> [text[0]][0] in {NUL, SPACE}; }
    } else {
      FirstDigit(text, to);
      DigitsRead(text[1..], to - 1, 8 * value + (text[0] - 0x30));
      Spread(value, text[0] - 0x30, Power8(to - 1));
    }
  }

  lemma Spread(value: nat, digit: nat, p: nat)
    ensures (8 * value + digit) * p == value * (8 * p) + digit * p
  {}

  /** A field is read as the number its digits spell. */
  lemma {:induction false} OctalRead(text: bytes, from: nat, to: nat)
    requires OctalField(text, from, to)
    ensures Octal(text, 0, false) == (true, OctalNumber(text[from..to]))
  {
    if from == 0 {
      if to > 0 {
        assert text[0..to] == text[..to];
        DigitsRead(text, to, 0);
        assert text[..to][0] in OCTAL;
        OctalDigitExactly(text[0]);
      }
    } else {
      assert text[..from][0] == text[0];
      assert text[1..][..from - 1] == text[..from][1..] && text[1..][from - 1..to - 1] == text[from..to];
      OctalRead(text[1..], from - 1, to - 1);
    }
  }

  lemma {:induction false} OctalSpan(text: bytes, value: nat, saw: bool) returns (from: nat, to: nat)
    requires Octal(text, value, saw).0
    ensures from <= to <= |text| && Padding(text[..from]) && OctalDigits(text[from..to])
    ensures saw ==> from == 0
    ensures to == |text| || ((saw || from < to) && Padding([text[to]]))
  {
    from, to := 0, 0;
    if text == [] || (saw && !OctalDigit(text[0])) {
    } else if OctalDigit(text[0]) {
      OctalDigitExactly(text[0]);
      var _, end := OctalSpan(text[1..], 8 * value + (text[0] - 0x30), true);
      to := end + 1;
      assert text[0..to] == [text[0]] + text[1..][..end];
    } else {
      var first, end := OctalSpan(text[1..], value, false);
      from, to := first + 1, end + 1;
      assert text[..from] == [text[0]] + text[1..][..first];
      assert text[from..to] == text[1..][first..end];
    }
  }

  /** Exactly octal fields are accepted, and read as the number they spell. */
  lemma OctalExactly(text: bytes)
    ensures Octal(text, 0, false).0 <==> exists from: nat, to: nat :: OctalField(text, from, to)
    ensures forall from: nat, to: nat | OctalField(text, from, to) :: Octal(text, 0, false) == (true, OctalNumber(text[from..to]))
  {
    if Octal(text, 0, false).0 {
      var from, to := OctalSpan(text, 0, false);
      assert OctalField(text, from, to);
    }
    forall from: nat, to: nat | OctalField(text, from, to)
      ensures Octal(text, 0, false) == (true, OctalNumber(text[from..to]))
    {
      OctalRead(text, from, to);
    }
  }

  // Paths.

  function ToSlash(c: Byte): Byte { if c == BACKSLASH then SLASH else c }

  function Slashes(s: bytes): (r: bytes)
    ensures |r| == |s| && forall i | 0 <= i < |s| :: r[i] == ToSlash(s[i])
  {
    seq(|s|, i requires 0 <= i < |s| => ToSlash(s[i]))
  }

  predicate Letter(c: Byte) { 0x41 <= c <= 0x5A || 0x61 <= c <= 0x7A }

  predicate AbsoluteOrDrive(p: bytes) { p != [] && (p[0] == SLASH || (|p| >= 2 && Letter(p[0]) && p[1] == COLON)) }

  function DropSlashes(p: bytes): (r: bytes)
    ensures r == [] || r[0] != SLASH
    ensures p != [] && p[0] != SLASH ==> r == p
  {
    if p != [] && p[0] == SLASH then DropSlashes(p[1..]) else p
  }

  /** normalize_archive_path */
  function Normalized(p: bytes): bytes { DropSlashes(Slashes(p)) }

  /** Is some segment between slashes ".."? */
  predicate HasParent(p: bytes)
    decreases |p|
  {
    var n := IndexOf(p, SLASH);
    p[..n] == [DOT, DOT] || (n < |p| && HasParent(p[n + 1..]))
  }

  /** A segment ".." stands at this place: between slashes or at an end of the path. */
  predicate ParentAt(p: bytes, i: int) {
    && 0 <= i && i + 2 <= |p| && p[i] == 0x2E && p[i + 1] == 0x2E
    && (i == 0 || p[i - 1] == 0x2F) && (i + 2 == |p| || p[i + 2] == 0x2F)
  }

  /** No segment of the path is "..". */
  predicate NoParent(p: bytes) { forall i | 0 <= i < |p| :: !ParentAt(p, i) }

  /** The search by segments finds exactly what stands between slashes. */
  lemma {:induction false} HasParentExactly(p: bytes)
    ensures HasParent(p) <==> exists i :: ParentAt(p, i)
    decreases |p|
  {
    var n := IndexOf(p, SLASH);
    if n < |p| { HasParentExactly(p[n + 1..]); }
    if HasParent(p) {
      if p[..n] == [DOT, DOT] {
        assert p[0] == p[..n][0] && p[1] == p[..n][1];
        assert ParentAt(p, 0);
      } else {
        var i :| ParentAt(p[n + 1..], i);
        LaterSegment(p, n, i);
      }
    }
    if i :| ParentAt(p, i) {
      if i <= n { FirstSegment(p, n, i); } else { LaterSegment(p, n, i - n - 1); }
    }
  }

  lemma FirstSegment(p: bytes, n: nat, i: int)
    requires n == IndexOf(p, SLASH) && i <= n && ParentAt(p, i)
    ensures p[..n] == [DOT, DOT]
  {}

  /** Behind the first slash the places are those of the rest of the path. */
  lemma LaterSegment(p: bytes, n: nat, i: int)
    requires n < |p| && p[n] == SLASH && i >= 0
    ensures ParentAt(p, i + n + 1) <==> ParentAt(p[n + 1..], i)
  {
    var rest := p[n + 1..];
    if i + 2 <= |rest| {
      assert rest[i] == p[i + n + 1] && rest[i + 1] == p[i + n + 2];
      if i > 0 { assert rest[i - 1] == p[i + n]; }
      if i + 2 < |rest| { assert rest[i + 2] == p[i + n + 3]; }
    }
  }

  /** has_dotdot_segment, segment by segment. */
  method HasParentSegment(path: bytes) returns (r: bool)
    ensures r == HasParent(path)
  {
    var rest := path;
    while true
      invariant HasParent(path) == HasParent(rest)
      decreases |rest|
    {
      var n := IndexOf(rest, SLASH);
      if rest[..n] == [DOT, DOT] { return true; }
      if n == |rest| { return false; }
      rest := rest[n + 1..];
    }
  }

  /** Joining two paths with a slash gives exactly their segments. */
  lemma {:induction false} ParentOfJoin(a: bytes, b: bytes)
    ensures HasParent(a + [SLASH] + b) <==> HasParent(a) || HasParent(b)
    decreases |a|
  {
    var p := a + [SLASH] + b;
    var n := IndexOf(a, SLASH);
    if n == |a| {
      IndexOfBeyond(a, [SLASH] + b, SLASH);
      assert p == a + ([SLASH] + b);
      assert p[..|a|] == a && p[|a| + 1..] == b;
      assert a[..n] == a;
    } else {
      IndexOfPrefix(a, [SLASH] + b, SLASH);
      assert p == a + ([SLASH] + b);
      assert p[..n] == a[..n];
      assert p[n + 1..] == a[n + 1..] + [SLASH] + b;
      ParentOfJoin(a[n + 1..], b);
    }
  }

  // Headers.

  function UntilNul(s: bytes): bytes { s[..IndexOf(s, NUL)] }

  predicate AllZero(s: bytes) { forall i | 0 <= i < |s| :: s[i] == NUL }

  function RawPath(h: bytes): bytes
    requires |h| == BLOCK
  {
    var name, prefix := UntilNul(h[0..100]), UntilNul(h[345..500]);
    Slashes(if prefix == [] then name else prefix + [SLASH] + name)
  }

  predicate DeviceType(t: Byte) { t == 0x33 || t == 0x34 || t == 0x36 }

  predicate Regular(t: Byte) { t == 0x30 || t == NUL }

  /** The checks on one header, in the reader's order; the member has no data yet. */
  function ReadHeader(h: bytes, limits: Limits, count: nat, total: nat): Outcome<Member, TarError>
    requires |h| == BLOCK
  {
    var raw := RawPath(h);
    var path := Normalized(raw);
    var (sizeOk, size) := Octal(h[124..136], 0, false);
    if count >= limits.maximumFiles then Err(TooManyFiles)
    else if AbsoluteOrDrive(raw) then Err(AbsolutePath)
    else if path == [] then Err(EmptyPath)
    else if HasParent(path) then Err(ParentPath)
    else if !sizeOk then Err(BadSize)
    else if size > limits.maximumFile then Err(FileTooLarge)
    else if total > limits.maximumTotal || size > limits.maximumTotal - total then Err(TotalTooLarge)
    else if DeviceType(h[156]) then Err(Device)
    else Ok(Member(path, h[156], size, Slashes(UntilNul(h[157..257])), [], Octal(h[100..108], 0, false).1))
  }

  /** Room taken by the data of a member: whole blocks. */
  function PaddedSize(size: nat): (n: nat)
    ensures size <= n < size + BLOCK && n % BLOCK == 0
  {
    if size == 0 then 0 else if size <= BLOCK then BLOCK else BLOCK + PaddedSize(size - BLOCK)
  }

  /** The reader's rounding: (size + 511) & ~511. */
  lemma {:induction false} RoundedUp(size: nat)
    ensures PaddedSize(size) == (size + 511) / 512 * 512
  {
    if size > BLOCK { RoundedUp(size - BLOCK); }
  }

  /** The offset behind a header and the data of its member. */
  function Next(offset: nat, size: nat): (n: nat)
    requires offset % BLOCK == 0
    ensures n % BLOCK == 0
  {
    AlignedSum(offset, PaddedSize(size));
    offset + BLOCK + PaddedSize(size)
  }

  lemma AlignedSum(a: nat, b: nat)
    requires a % BLOCK == 0 && b % BLOCK == 0
    ensures (a + BLOCK + b) % BLOCK == 0
  {}

  function Filled(m: Member, tar: bytes, at: nat): Member
    requires at + m.size <= |tar|
  {
    if Regular(m.typeflag) then m.(data := tar[at..at + m.size]) else m
  }

  /** The member whose header is at an offset, given the members and bytes read before it. */
  function ReadMember(tar: bytes, limits: Limits, offset: nat, count: nat, total: nat): Outcome<Member, TarError>
  {
    if offset + BLOCK > |tar| then Err(Truncated)
    else FilledOrTruncated(ReadHeader(tar[offset..offset + BLOCK], limits, count, total), tar, offset)
  }

  function FilledOrTruncated(header: Outcome<Member, TarError>, tar: bytes, offset: nat): Outcome<Member, TarError> {
    match header
    case Err(e) => Err(e)
    case Ok(m) => if offset + BLOCK + m.size > |tar| then Err(Truncated) else Ok(Filled(m, tar, offset + BLOCK))
  }

  type Reader = (nat, nat, nat) -> Outcome<Member, TarError>

  function ReaderOf(tar: bytes, limits: Limits): Reader {
    (offset: nat, count: nat, total: nat) => ReadMember(tar, limits, offset, count, total)
  }

  /** What the reader makes of an archive from a block boundary on. */
  function ParseFrom(tar: bytes, read: Reader, offset: nat, members: seq<Member>, total: nat): Outcome<seq<Member>, TarError>
    requires offset % BLOCK == 0
    decreases |tar| - offset
  {
    if offset + BLOCK > |tar| || AllZero(tar[offset..offset + BLOCK]) then Ok(members)
    else
      match read(offset, |members|, total)
      case Err(e) => Err(e)
      case Ok(m) => ParseFrom(tar, read, Next(offset, m.size), members + [m], total + |m.data|)
  }

  /** parse_ustar */
  function Parse(tar: bytes, limits: Limits): Outcome<seq<Member>, TarError> { ParseFrom(tar, ReaderOf(tar, limits), 0, [], 0) }

  // What is true of everything the reader returns.

  function DataBytes(members: seq<Member>): nat {
    if members == [] then 0 else DataBytes(members[..|members| - 1]) + |members[|members| - 1].data|
  }

  lemma LetterExactly(c: Byte)
    ensures Letter(c) <==> c in CAPITALS || c in SMALLS
  {
    CharactersExactly(c);
  }

  /** A path from the root or from a drive: it begins with a slash, or with a letter and a colon. */
  predicate Rooted(p: bytes) { p != [] && (p[0] == 0x2F || (|p| >= 2 && (p[0] in CAPITALS || p[0] in SMALLS) && p[1] == 0x3A)) }

  lemma RootedExactly(p: bytes)
    ensures AbsoluteOrDrive(p) <==> Rooted(p)
  {
    if p != [] { LetterExactly(p[0]); }
  }

  /** A relative path with forward slashes and no ".." segment. */
  predicate SafePath(p: bytes) { p != [] && !Rooted(p) && 0x5C !in p && NoParent(p) }

  lemma SafeExactly(p: bytes)
    ensures SafePath(p) <==> p != [] && !AbsoluteOrDrive(p) && BACKSLASH !in p && !HasParent(p)
  {
    RootedExactly(p);
    HasParentExactly(p);
  }

  /** Character devices, block devices and fifos by their type flags; regular files by theirs. */
  lemma TypesExactly(t: Byte)
    ensures DeviceType(t) <==> t in Ascii("346")
    ensures Regular(t) <==> t == 0 || t in Ascii("0")
  {
    assert Ascii("346")[0] == 0x33 && Ascii("346")[1] == 0x34 && Ascii("346")[2] == 0x36 && Ascii("0")[0] == 0x30;
  }

  /** Backslashes become slashes and nothing else changes. */
  lemma SlashesExactly(s: bytes, i: nat)
    requires i < |s|
    ensures Slashes(s)[i] == if s[i] == 0x5C then 0x2F else s[i]
  {}

  /** Regular members carry a block-aligned slice of the archive, other members nothing. */
  ghost predicate FromArchive(tar: bytes, m: Member) { exists at: nat :: DataAt(tar, m, at) }

  predicate DataAt(tar: bytes, m: Member, at: nat) {
    at % BLOCK == 0 && at + m.size <= |tar| && m.data == if Regular(m.typeflag) then tar[at..at + m.size] else []
  }

  ghost predicate Sound(tar: bytes, limits: Limits, m: Member) {
    && SafePath(m.path) && BACKSLASH !in m.linkname && !DeviceType(m.typeflag)
    && m.size <= limits.maximumFile && FromArchive(tar, m)
  }

  /** Where every check of the header passes, its fields are the member. */
  lemma HeaderPasses(h: bytes, limits: Limits, count: nat, total: nat, path: bytes, size: nat)
    requires |h| == BLOCK && RawPath(h) == path && Normalized(path) == path && path != []
    requires !AbsoluteOrDrive(path) && !HasParent(path) && !DeviceType(h[156]) && Octal(h[124..136], 0, false) == (true, size)
    requires count < limits.maximumFiles && size <= limits.maximumFile && total + size <= limits.maximumTotal
    ensures ReadHeader(h, limits, count, total) ==
            Ok(Member(path, h[156], size, Slashes(UntilNul(h[157..257])), [], Octal(h[100..108], 0, false).1))
  {}

  lemma HeaderSound(h: bytes, limits: Limits, count: nat, total: nat)
    requires |h| == BLOCK && ReadHeader(h, limits, count, total).Ok?
    ensures var m := ReadHeader(h, limits, count, total).value;
            && count < limits.maximumFiles && total + m.size <= limits.maximumTotal && m.size <= limits.maximumFile
            && m.path == RawPath(h) && SafePath(m.path) && BACKSLASH !in m.linkname && !DeviceType(m.typeflag) && m.data == []
  {
    var raw := RawPath(h);
    assert BACKSLASH !in raw;
    assert Slashes(raw) == raw;
    assert BACKSLASH !in Slashes(UntilNul(h[157..257]));
    SafeExactly(raw);
  }

  /** A header is accepted exactly when its path is safe, its size is an octal number within the limits, and it is no device. */
  lemma HeaderExactly(h: bytes, limits: Limits, count: nat, total: nat)
    requires |h| == BLOCK
    ensures ReadHeader(h, limits, count, total).Ok? <==>
            && count < limits.maximumFiles && SafePath(RawPath(h)) && h[156] !in Ascii("346")
            && Octal(h[124..136], 0, false).0 && Octal(h[124..136], 0, false).1 <= limits.maximumFile
            && total + Octal(h[124..136], 0, false).1 <= limits.maximumTotal
  {
    var raw := RawPath(h);
    assert BACKSLASH !in raw;
    SafeExactly(raw);
    TypesExactly(h[156]);
    if raw != [] && raw[0] != SLASH { NormalizedSafe(raw); }
  }

  lemma Aligned(offset: nat)
    requires offset % BLOCK == 0
    ensures (offset + BLOCK) % BLOCK == 0
  {}

  ghost predicate Every(members: seq<Member>, p: Member -> bool) { forall m | m in members :: p(m) }

  lemma OneMoreOfEvery(members: seq<Member>, m: Member, p: Member -> bool)
    requires Every(members, p) && p(m)
    ensures Every(members + [m], p)
  {}

  ghost function SoundIn(tar: bytes, limits: Limits): Member -> bool { (m: Member) => Sound(tar, limits, m) }

  ghost predicate AllSound(tar: bytes, limits: Limits, members: seq<Member>) {
    && |members| <= limits.maximumFiles && DataBytes(members) <= limits.maximumTotal
    && Every(members, SoundIn(tar, limits))
  }

  lemma StepSound(tar: bytes, limits: Limits, offset: nat, count: nat, total: nat)
    requires offset % BLOCK == 0 && offset + BLOCK <= |tar| && ReadMember(tar, limits, offset, count, total).Ok?
    ensures var m := ReadMember(tar, limits, offset, count, total).value;
            Sound(tar, limits, m) && count < limits.maximumFiles && total + |m.data| <= limits.maximumTotal
  {
    var h := tar[offset..offset + BLOCK];
    HeaderSound(h, limits, count, total);
    var m := ReadHeader(h, limits, count, total).value;
    Aligned(offset);
    assert DataAt(tar, Filled(m, tar, offset + BLOCK), offset + BLOCK);
  }

  lemma OneMoreSound(tar: bytes, limits: Limits, members: seq<Member>, m: Member)
    requires AllSound(tar, limits, members) && Sound(tar, limits, m)
    requires |members| < limits.maximumFiles && DataBytes(members) + |m.data| <= limits.maximumTotal
    ensures AllSound(tar, limits, members + [m]) && DataBytes(members + [m]) == DataBytes(members) + |m.data|
  {
    OneMoreData(members, m);
    var sound := SoundIn(tar, limits);
    assert sound(m);
    OneMoreOfEvery(members, m, sound);
  }

  lemma OneMoreData(members: seq<Member>, m: Member)
    ensures DataBytes(members + [m]) == DataBytes(members) + |m.data|
  {
    assert (members + [m])[..|members|] == members;
  }

  ghost predicate ReadsSound(tar: bytes, limits: Limits, read: Reader) {
    forall o: nat, c: nat, t: nat | o % BLOCK == 0 && o + BLOCK <= |tar| ::
      read(o, c, t).Ok? ==>
        var m := read(o, c, t).value; Sound(tar, limits, m) && c < limits.maximumFiles && t + |m.data| <= limits.maximumTotal
  }

  lemma {:induction false} ParseFromSound(tar: bytes, limits: Limits, read: Reader, offset: nat, members: seq<Member>, total: nat)
    requires offset % BLOCK == 0 && ReadsSound(tar, limits, read)
    requires ParseFrom(tar, read, offset, members, total).Ok?
    requires AllSound(tar, limits, members) && DataBytes(members) == total
    ensures AllSound(tar, limits, ParseFrom(tar, read, offset, members, total).value)
    decreases |tar| - offset
  {
    if offset + BLOCK <= |tar| && !AllZero(tar[offset..offset + BLOCK]) {
      var m := read(offset, |members|, total).value;
      OneMoreSound(tar, limits, members, m);
      ParseFromSound(tar, limits, read, Next(offset, m.size), members + [m], total + |m.data|);
    }
  }

  /** Every accepted archive, whatever its bytes, yields only sound members within every limit. */
  lemma ParseSound(tar: bytes, limits: Limits)
    requires Parse(tar, limits).Ok?
    ensures AllSound(tar, limits, Parse(tar, limits).value)
  {
    var read := ReaderOf(tar, limits);
    forall o: nat, c: nat, t: nat | o % BLOCK == 0 && o + BLOCK <= |tar| && read(o, c, t).Ok?
      ensures Sound(tar, limits, read(o, c, t).value) && c < limits.maximumFiles && t + |read(o, c, t).value.data| <= limits.maximumTotal
    {
      StepSound(tar, limits, o, c, t);
    }
    ParseFromSound(tar, limits, read, 0, [], 0);
  }

  // The reader.

  method ParseHeader(h: bytes, limits: Limits, count: Word64, total: Word64) returns (r: Outcome<Member, TarError>)
    requires |h| == BLOCK
    ensures r == ReadHeader(h, limits, count, total)
    ensures r.Ok? ==> r.value.size < 0x10_0000_0000 && count < limits.maximumFiles && total + r.value.size <= limits.maximumTotal
    ensures r.Ok? ==> r.value.data == []
  {
    if count >= limits.maximumFiles { return Err(TooManyFiles); }
    var raw := RawPath(h);
    if AbsoluteOrDrive(raw) { return Err(AbsolutePath); }
    var path := Normalized(raw);
    if path == [] { return Err(EmptyPath); }
    var parent := HasParentSegment(path);
    if parent { return Err(ParentPath); }
    var ok, size := ParseOctal(h[124..136]);
    if !ok { return Err(BadSize); }
    if size > limits.maximumFile { return Err(FileTooLarge); }
    if total > limits.maximumTotal { return Err(TotalTooLarge); }
    var room: Word64 := limits.maximumTotal - total;
    if size > room { return Err(TotalTooLarge); }
    var modeOk, mode := ParseOctal(h[100..108]);
    if DeviceType(h[156]) { return Err(Device); }
    return Ok(Member(path, h[156], size, Slashes(UntilNul(h[157..257])), [], mode));
  }

  ghost predicate IsReader(tar: bytes, limits: Limits, read: Reader) {
    forall o: nat, c: nat, t: nat {:trigger ReadMember(tar, limits, o, c, t)} ::
      read(o, c, t) == ReadMember(tar, limits, o, c, t)
  }

  method ReadOne(tar: bytes, limits: Limits, offset: Word64, count: Word64, total: Word64, ghost read: Reader)
    returns (r: Outcome<Member, TarError>)
    requires offset + BLOCK <= |tar| <= MAXIMUM_STRING && IsReader(tar, limits, read)
    ensures r == read(offset, count, total)
    ensures r.Ok? ==> r.value.size < 0x10_0000_0000 && count < limits.maximumFiles && total + |r.value.data| <= limits.maximumTotal
  {
    var header := ParseHeader(tar[offset..offset + BLOCK], limits, count, total);
    assert read(offset, count, total) == ReadMember(tar, limits, offset, count, total);
    r := FillMember(tar, offset, header);
  }

  method FillMember(tar: bytes, offset: Word64, header: Outcome<Member, TarError>) returns (r: Outcome<Member, TarError>)
    requires offset + BLOCK <= |tar| <= MAXIMUM_STRING
    requires header.Ok? ==> header.value.size < 0x10_0000_0000 && header.value.data == []
    ensures r == FilledOrTruncated(header, tar, offset)
    ensures r.Ok? ==> header.Ok? && r.value.size == header.value.size && |r.value.data| <= r.value.size
  {
    r := header;
    if r.Ok? {
      var member := r.value;
      var at: Word64 := offset + BLOCK;
      var end: Word64 := at + member.size;
      if end > |tar| {
        r := Err(Truncated);
      } else if Regular(member.typeflag) {
        r := Ok(member.(data := tar[at..end]));
      }
    }
  }

  method Advance(offset: Word64, size: Word64) returns (next: Word64)
    requires offset % BLOCK == 0 && offset <= MAXIMUM_STRING && size < 0x10_0000_0000
    ensures next == Next(offset, size) && offset < next < offset + 0x20_0000_0000
  {
    next := offset + BLOCK;
    var padded: Word64 := (size + 511) / 512 * 512;
    RoundedUp(size);
    next := next + padded;
  }

  lemma ParseStep(tar: bytes, read: Reader, offset: nat, members: seq<Member>, total: nat, result: Outcome<seq<Member>, TarError>)
    requires offset % BLOCK == 0 && offset + BLOCK <= |tar| && !AllZero(tar[offset..offset + BLOCK])
    requires Yields(tar, read, offset, members, total, result)
    ensures read(offset, |members|, total).Err? ==> result == Err(read(offset, |members|, total).error)
    ensures read(offset, |members|, total).Ok? ==>
              var m := read(offset, |members|, total).value;
              Yields(tar, read, Next(offset, m.size), members + [m], total + |m.data|, result)
  {}

  lemma ParseEnd(tar: bytes, read: Reader, offset: nat, members: seq<Member>, total: nat, result: Outcome<seq<Member>, TarError>)
    requires offset % BLOCK == 0 && offset + BLOCK > |tar|
    requires Yields(tar, read, offset, members, total, result)
    ensures result == Ok(members)
  {}

  ghost predicate Yields(tar: bytes, read: Reader, offset: nat, members: seq<Member>, total: nat, result: Outcome<seq<Member>, TarError>)
    requires offset % BLOCK == 0
  {
    ParseFrom(tar, read, offset, members, total) == result
  }

  /** The reader's loop, for any way of reading one member. */
  method ParseLoop(tar: bytes, limits: Limits, ghost read: Reader, ghost result: Outcome<seq<Member>, TarError>)
    returns (r: Outcome<seq<Member>, TarError>)
    requires |tar| <= MAXIMUM_STRING && IsReader(tar, limits, read)
    requires Yields(tar, read, 0, [], 0, result)
    ensures r == result
  {
    var offset: Word64 := 0;
    var total: Word64 := 0;
    var members: seq<Member> := [];
    while offset + BLOCK <= |tar|
      invariant offset % BLOCK == 0 && offset <= |tar| + 0x20_0000_0000
      invariant total <= limits.maximumTotal && |members| <= limits.maximumFiles < 0x1_0000_0000_0000_0000
      invariant Yields(tar, read, offset, members, total, result)
      decreases |tar| - offset
    {
      if AllZero(tar[offset..offset + BLOCK]) { return Ok(members); }
      ParseStep(tar, read, offset, members, total, result);
      var parsed := ReadOne(tar, limits, offset, |members|, total, read);
      if parsed.Err? { return Err(parsed.error); }
      members := members + [parsed.value];
      total := total + |parsed.value.data|;
      offset := Advance(offset, parsed.value.size);
    }
    r := Ok(members);
    ParseEnd(tar, read, offset, members, total, result);
  }

  /** parse_ustar; the stored offset, total and padding never leave 64 bits. */
  method ParseUstar(tar: bytes, limits: Limits) returns (r: Outcome<seq<Member>, TarError>)
    requires |tar| <= MAXIMUM_STRING
    ensures r == Parse(tar, limits)
  {
    r := ParseLoop(tar, limits, ReaderOf(tar, limits), Parse(tar, limits));
  }

  // Links.

  function LastSlash(p: bytes): (n: nat)
    ensures n <= |p|
  {
    if p == [] || p[|p| - 1] == SLASH then (if p == [] then 0 else |p| - 1) else LastSlash(p[..|p| - 1])
  }

  /** link_escapes_root */
  predicate LinkEscapes(memberPath: bytes, linkname: bytes) {
    || linkname == [] || AbsoluteOrDrive(linkname) || HasParent(linkname)
    || var path := Normalized(memberPath);
       var base := if SLASH in path then path[..LastSlash(path)] else [];
       var resolved := Normalized(if base == [] then linkname else base + [SLASH] + linkname);
       HasParent(resolved) || resolved == []
  }

  lemma {:induction false} LastSlashIs(p: bytes)
    requires SLASH in p
    ensures LastSlash(p) < |p| && p[LastSlash(p)] == SLASH
  {
    if p[|p| - 1] != SLASH { LastSlashIs(p[..|p| - 1]); }
  }

  lemma NormalizedSafe(p: bytes)
    requires p != [] && p[0] != SLASH && BACKSLASH !in p
    ensures Normalized(p) == p
  {
    assert Slashes(p) == p;
  }

  /** For what the reader returns, resolving adds nothing: a link escapes exactly when it is empty, absolute or has "..". */
  lemma LinkEscapesExactly(memberPath: bytes, linkname: bytes)
    requires SafePath(memberPath) && BACKSLASH !in linkname
    ensures LinkEscapes(memberPath, linkname) <==> linkname == [] || Rooted(linkname) || !NoParent(linkname)
  {
    SafeExactly(memberPath);
    RootedExactly(linkname);
    HasParentExactly(linkname);
    NormalizedSafe(memberPath);
    if linkname != [] && !AbsoluteOrDrive(linkname) && !HasParent(linkname) {
      NormalizedSafe(linkname);
      if SLASH in memberPath { ResolvedInside(memberPath, linkname); }
    }
  }

  lemma ResolvedInside(memberPath: bytes, linkname: bytes)
    requires memberPath != [] && memberPath[0] != SLASH && BACKSLASH !in memberPath && !HasParent(memberPath)
    requires SLASH in memberPath && BACKSLASH !in linkname && !HasParent(linkname)
    ensures var resolved := memberPath[..LastSlash(memberPath)] + [SLASH] + linkname;
            && memberPath[..LastSlash(memberPath)] != [] && Normalized(resolved) == resolved && !HasParent(resolved)
  {
    LastSlashIs(memberPath);
    var n := LastSlash(memberPath);
    ParentOfJoin(memberPath[..n], linkname);
    DirectoryHasNoParent(memberPath, n);
    JoinPlain(memberPath[..n], linkname);
    NormalizedSafe(memberPath[..n] + [SLASH] + linkname);
  }

  lemma DirectoryHasNoParent(p: bytes, n: nat)
    requires n < |p| && p[n] == SLASH && !HasParent(p)
    ensures !HasParent(p[..n])
  {
    assert p == p[..n] + [SLASH] + p[n + 1..];
    ParentOfJoin(p[..n], p[n + 1..]);
  }

  lemma JoinPlain(a: bytes, b: bytes)
    requires a != [] && a[0] != SLASH && BACKSLASH !in a && BACKSLASH !in b
    ensures var p := a + [SLASH] + b; p != [] && p[0] != SLASH && BACKSLASH !in p
  {}

  /** For any member path: a link escapes exactly when it is empty, absolute or has "..", or some directory of the path is "..". */
  lemma LinkEscapesAlways(memberPath: bytes, linkname: bytes)
    requires BACKSLASH !in linkname
    ensures LinkEscapes(memberPath, linkname) <==>
            || linkname == [] || Rooted(linkname) || !NoParent(linkname)
            || exists i :: ParentAt(Normalized(memberPath), i) && i + 2 < |Normalized(memberPath)|
  {
    var path := Normalized(memberPath);
    RootedExactly(linkname);
    HasParentExactly(linkname);
    NoBackslash(Slashes(memberPath));
    if SLASH in path {
      LastSlashIs(path);
      var n := LastSlash(path);
      HasParentExactly(path[..n]);
      BeforeLast(path, n);
      if linkname != [] {
        JoinPlain(path[..n], linkname);
        NormalizedSafe(path[..n] + [SLASH] + linkname);
        ParentOfJoin(path[..n], linkname);
      }
    } else {
      if linkname != [] && linkname[0] != SLASH { NormalizedSafe(linkname); }
    }
  }

  lemma {:induction false} NoBackslash(p: bytes)
    requires BACKSLASH !in p
    ensures BACKSLASH !in DropSlashes(p)
  {
    if p != [] && p[0] == SLASH { NoBackslash(p[1..]); }
  }

  /** The ".." segments of the directory are those of the path with a slash behind them. */
  lemma BeforeLast(p: bytes, n: nat)
    requires SLASH in p && n == LastSlash(p)
    ensures (exists i :: ParentAt(p[..n], i)) <==> exists i :: ParentAt(p, i) && i + 2 < |p|
  {
    LastSlashIs(p);
    if i :| ParentAt(p[..n], i) { assert ParentAt(p, i); }
    if i :| ParentAt(p, i) && i + 2 < |p| {
      SlashesUpTo(p, i + 2);
      assert ParentAt(p[..n], i);
    }
  }

  lemma {:induction false} SlashesUpTo(p: bytes, i: nat)
    requires i < |p| && p[i] == SLASH
    ensures i <= LastSlash(p)
  {
    if p[|p| - 1] != SLASH { SlashesUpTo(p[..|p| - 1], i); }
  }
}
