/** A ustar writer, and the proof that the reader returns what it wrote. */
module UstarWriter {
  import opened Bytes
  import opened Wrappers
  import opened Ustar

  /** An archive entry; the octets of the fields the reader skips are arbitrary. */
  datatype Entry = Entry(
    name: bytes, prefix: bytes, mode: nat, typeflag: Byte, linkname: bytes, content: bytes,
    terminator: Byte, ids: bytes, times: bytes, middle: bytes, rest: bytes)

  function Zeros(n: nat): (r: bytes)
    ensures |r| == n && AllZero(r)
  {
    seq(n, _ => NUL)
  }

  /** Text padded with NULs to a field's width. */
  function TextField(s: bytes, width: nat): (r: bytes)
    requires |s| <= width
    ensures |r| == width
  {
    s + Zeros(width - |s|)
  }

  function OctalDigits(n: nat, count: nat): (r: bytes)
    ensures |r| == count
  {
    if count == 0 then [] else OctalDigits(n / 8, count - 1) + [0x30 + n % 8]
  }

  /** A number in octal, with leading zeros and a NUL or space behind it. */
  function NumberField(n: nat, width: nat, terminator: Byte): (r: bytes)
    requires width > 0
    ensures |r| == width
  {
    OctalDigits(n, width - 1) + [terminator]
  }

  predicate Plain(s: bytes, width: nat) { |s| <= width && NUL !in s }

  /** What the format can hold and the reader accepts, whatever the limits. */
  predicate Admissible(e: Entry) {
    && Plain(e.name, 100) && Plain(e.prefix, 155) && Plain(e.linkname, 100)
    && e.mode < Power8(7) && |e.content| < Power8(11) && (e.terminator == NUL || e.terminator == SPACE)
    && |e.ids| == 16 && |e.times| == 20 && |e.middle| == 88 && |e.rest| == 12
    && !DeviceType(e.typeflag) && SafePath(PathOf(e))
  }

  function PathOf(e: Entry): bytes { Slashes(if e.prefix == [] then e.name else e.prefix + [SLASH] + e.name) }

  function MemberOf(e: Entry): Member {
    Member(PathOf(e), e.typeflag, |e.content|, Slashes(e.linkname), if Regular(e.typeflag) then e.content else [], e.mode)
  }

  /** The header block: name, mode, ids, size, times, type, link name, other fields, prefix. */
  function HeaderOf(e: Entry): (r: bytes)
    requires Admissible(e)
    ensures |r| == BLOCK
  {
    TextField(e.name, 100) + (NumberField(e.mode, 8, e.terminator) + (e.ids + (NumberField(|e.content|, 12, e.terminator) + After(e))))
  }

  function After(e: Entry): (r: bytes)
    requires Admissible(e)
    ensures |r| == BLOCK - 136
  {
    e.times + ([e.typeflag] + (TextField(e.linkname, 100) + (e.middle + (TextField(e.prefix, 155) + e.rest))))
  }

  function Written(e: Entry): (r: bytes)
    requires Admissible(e)
    ensures |r| == BLOCK + PaddedSize(|e.content|)
  {
    HeaderOf(e) + (e.content + Zeros(PaddedSize(|e.content|) - |e.content|))
  }

  /** A written entry, with the member it stands for. */
  datatype Chunk = Chunk(octets: bytes, member: Member)

  function Chunks(es: seq<Entry>): seq<Chunk>
    requires forall e | e in es :: Admissible(e)
  {
    if es == [] then [] else [Chunk(Written(es[0]), MemberOf(es[0]))] + Chunks(es[1..])
  }

  function Concat(cs: seq<Chunk>, tail: bytes): bytes { if cs == [] then tail else cs[0].octets + Concat(cs[1..], tail) }

  function Members(cs: seq<Chunk>): seq<Member> { if cs == [] then [] else [cs[0].member] + Members(cs[1..]) }

  /** The entries, then whatever follows: an end marker, or nothing. */
  function Archive(es: seq<Entry>, tail: bytes): bytes
    requires forall e | e in es :: Admissible(e)
  {
    Concat(Chunks(es), tail)
  }

  // Fields come back.

  lemma UntilNulField(s: bytes, width: nat)
    requires Plain(s, width)
    ensures UntilNul(TextField(s, width)) == s
  {
    IndexOfBeyond(s, Zeros(width - |s|), NUL);
    if |s| < width { assert Zeros(width - |s|)[0] == NUL; }
  }

  lemma {:induction false} OctalOfDigits(n: nat, count: nat, rest: bytes, value: nat, saw: bool)
    requires n < Power8(count)
    ensures Octal(OctalDigits(n, count) + rest, value, saw) == Octal(rest, value * Power8(count) + n, saw || count > 0)
  {
    if count == 0 {
      assert OctalDigits(n, count) + rest == rest;
      assert value * Power8(0) + n == value;
    } else {
      var digit: Byte := 0x30 + n % 8;
      assert OctalDigits(n, count) + rest == OctalDigits(n / 8, count - 1) + ([digit] + rest);
      OctalOfDigits(n / 8, count - 1, [digit] + rest, value, saw);
      assert ([digit] + rest)[1..] == rest;
      Shifted(value, Power8(count - 1), n);
    }
  }

  lemma Shifted(value: nat, p: nat, n: nat)
    ensures 8 * (value * p + n / 8) + n % 8 == value * (8 * p) + n
  {}

  lemma NumberFieldRead(n: nat, width: nat, terminator: Byte)
    requires width > 1 && n < Power8(width - 1) && (terminator == NUL || terminator == SPACE)
    ensures Octal(NumberField(n, width, terminator), 0, false) == (true, n)
  {
    OctalOfDigits(n, width - 1, [terminator], 0, false);
    assert Octal([terminator], n, true) == (true, n);
  }

  lemma Slice(a: bytes, b: bytes, i: nat, j: nat)
    requires i <= j <= |b|
    ensures (a + b)[|a| + i..|a| + j] == b[i..j]
  {}

  lemma First(a: bytes, b: bytes)
    ensures (a + b)[..|a|] == a && (a + b)[0..|a|] == a
  {}

  lemma FrontFields(e: Entry)
    requires Admissible(e)
    ensures var h := HeaderOf(e);
            && h[0..100] == TextField(e.name, 100) && h[100..108] == NumberField(e.mode, 8, e.terminator)
            && h[124..136] == NumberField(|e.content|, 12, e.terminator)
  {
    var name, mode, size := TextField(e.name, 100), NumberField(e.mode, 8, e.terminator), NumberField(|e.content|, 12, e.terminator);
    var c := size + After(e);
    var b := e.ids + c;
    var a := mode + b;
    First(name, a);
    Slice(name, a, 0, 8);
    First(mode, b);
    Slice(name, a, 24, 36);
    Slice(mode, b, 16, 28);
    Slice(e.ids, c, 0, 12);
    First(size, After(e));
  }

  lemma Behind(e: Entry, i: nat, j: nat)
    requires Admissible(e) && i <= j <= BLOCK - 136
    ensures HeaderOf(e)[136 + i..136 + j] == After(e)[i..j]
  {
    var name, mode, size := TextField(e.name, 100), NumberField(e.mode, 8, e.terminator), NumberField(|e.content|, 12, e.terminator);
    var c := size + After(e);
    var b := e.ids + c;
    Slice(name, mode + b, 36 + i, 36 + j);
    Slice(mode, b, 28 + i, 28 + j);
    Slice(e.ids, c, 12 + i, 12 + j);
    Slice(size, After(e), i, j);
  }

  lemma BackFields(e: Entry)
    requires Admissible(e)
    ensures var h := HeaderOf(e);
            && h[156..157] == [e.typeflag] && h[157..257] == TextField(e.linkname, 100) && h[345..500] == TextField(e.prefix, 155)
  {
    var link, prefix := TextField(e.linkname, 100), TextField(e.prefix, 155);
    var d := prefix + e.rest;
    var c := e.middle + d;
    var b := link + c;
    var a := [e.typeflag] + b;
    Behind(e, 20, 21);
    Slice(e.times, a, 0, 1);
    First([e.typeflag], b);
    Behind(e, 21, 121);
    Slice(e.times, a, 1, 101);
    Slice([e.typeflag], b, 0, 100);
    First(link, c);
    Behind(e, 209, 364);
    Slice(e.times, a, 189, 344);
    Slice([e.typeflag], b, 188, 343);
    Slice(link, c, 88, 243);
    Slice(e.middle, d, 0, 155);
    First(prefix, e.rest);
  }

  /** The reader's checks on a written header pass exactly when the limits leave room, and give the entry back. */
  lemma HeaderRead(e: Entry, limits: Limits, count: nat, total: nat)
    requires Admissible(e)
    requires count < limits.maximumFiles && |e.content| <= limits.maximumFile && total + |e.content| <= limits.maximumTotal
    ensures ReadHeader(HeaderOf(e), limits, count, total) == Ok(MemberOf(e).(data := []))
  {
    RawPathRead(e);
    NumbersRead(e);
    AdmissiblePath(e);
    HeaderPasses(HeaderOf(e), limits, count, total, PathOf(e), |e.content|);
  }

  lemma AdmissiblePath(e: Entry)
    requires Admissible(e)
    ensures PathOf(e) != [] && !AbsoluteOrDrive(PathOf(e)) && !HasParent(PathOf(e)) && Normalized(PathOf(e)) == PathOf(e)
  {
    SafeExactly(PathOf(e));
    NormalizedSafe(PathOf(e));
  }

  lemma RawPathRead(e: Entry)
    requires Admissible(e)
    ensures var h := HeaderOf(e);
            RawPath(h) == PathOf(e) && UntilNul(h[157..257]) == e.linkname && h[156] == e.typeflag
  {
    var h := HeaderOf(e);
    FrontFields(e);
    BackFields(e);
    assert h[156] == h[156..157][0];
    UntilNulField(e.name, 100);
    UntilNulField(e.prefix, 155);
    UntilNulField(e.linkname, 100);
  }

  lemma NumbersRead(e: Entry)
    requires Admissible(e)
    ensures var h := HeaderOf(e);
            Octal(h[124..136], 0, false) == (true, |e.content|) && Octal(h[100..108], 0, false) == (true, e.mode)
  {
    FrontFields(e);
    NumberFieldRead(e.mode, 8, e.terminator);
    NumberFieldRead(|e.content|, 12, e.terminator);
  }

  lemma HeaderNotZero(e: Entry)
    requires Admissible(e)
    ensures !AllZero(HeaderOf(e))
  {
    var h := HeaderOf(e);
    FrontFields(e);
    BackFields(e);
    if e.prefix != [] {
      assert h[345..500][0] == e.prefix[0];
      assert h[345] == e.prefix[0];
    } else {
      assert e.name != [];
      assert h[0..100][0] == e.name[0];
      assert h[0] == e.name[0];
    }
  }

  // Archives come back.

  /** Wherever the limits leave room, the header passes the reader's checks and gives the member. */
  ghost predicate Carries(h: bytes, m: Member, limits: Limits) {
    && |h| == BLOCK && !AllZero(h)
    && forall count: nat, total: nat {:trigger ReadHeader(h, limits, count, total)} ::
         Room(m, limits, count, total) ==> ReadHeader(h, limits, count, total) == Ok(m.(data := []))
  }

  lemma HeaderCarries(e: Entry, limits: Limits)
    requires Admissible(e)
    ensures Carries(HeaderOf(e), MemberOf(e), limits)
  {
    HeaderNotZero(e);
    forall count: nat, total: nat | Room(MemberOf(e), limits, count, total)
      ensures ReadHeader(HeaderOf(e), limits, count, total) == Ok(MemberOf(e).(data := []))
    {
      HeaderRead(e, limits, count, total);
    }
  }

  /** A written entry, wherever it stands in an archive, reads back as its member. */
  lemma WrittenRead(before: bytes, e: Entry, after: bytes, tar: bytes, limits: Limits, read: Reader, count: nat, total: nat)
    requires Admissible(e) && tar == before + (Written(e) + after) && IsReader(tar, limits, read)
    requires Room(MemberOf(e), limits, count, total)
    ensures |before| + BLOCK <= |tar| && !AllZero(tar[|before|..|before| + BLOCK])
    ensures read(|before|, count, total) == Ok(MemberOf(e))
  {
    HeaderCarries(e, limits);
    PlacedRead(before, HeaderOf(e), e.content, Zeros(PaddedSize(|e.content|) - |e.content|), after, MemberOf(e), tar, limits, read, count, total);
  }

  lemma PlacedRead(
      before: bytes, header: bytes, content: bytes, padding: bytes, after: bytes, m: Member,
      tar: bytes, limits: Limits, read: Reader, count: nat, total: nat)
    requires Carries(header, m, limits) && Room(m, limits, count, total) && m.size == |content|
    requires m.data == if Regular(m.typeflag) then content else []
    requires tar == before + (header + (content + padding) + after) && IsReader(tar, limits, read)
    ensures |before| + BLOCK <= |tar| && !AllZero(tar[|before|..|before| + BLOCK])
    ensures read(|before|, count, total) == Ok(m)
  {
    HeaderSlice(before, header, content, padding, after);
    ReadFrom(tar, |before|, header, m, content, limits, count, total);
  }

  lemma ReadFrom(tar: bytes, at: nat, header: bytes, m: Member, content: bytes, limits: Limits, count: nat, total: nat)
    requires Carries(header, m, limits) && Room(m, limits, count, total)
    requires at + BLOCK + |content| <= |tar| && m.size == |content|
    requires tar[at..at + BLOCK] == header && tar[at + BLOCK..at + BLOCK + |content|] == content
    requires m.data == if Regular(m.typeflag) then content else []
    ensures ReadMember(tar, limits, at, count, total) == Ok(m)
  {
    assert ReadHeader(header, limits, count, total) == Ok(m.(data := []));
    DataFilled(tar, at, m, content);
  }

  lemma DataFilled(tar: bytes, at: nat, m: Member, content: bytes)
    requires at + BLOCK + |content| <= |tar| && m.size == |content| && tar[at + BLOCK..at + BLOCK + |content|] == content
    requires m.data == if Regular(m.typeflag) then content else []
    ensures FilledOrTruncated(Ok(m.(data := [])), tar, at) == Ok(m)
  {}

  lemma HeaderSlice(before: bytes, header: bytes, content: bytes, padding: bytes, after: bytes)
    requires |header| == BLOCK
    ensures var tar := before + (header + (content + padding) + after);
            && |tar| >= |before| + BLOCK + |content| && tar[|before|..|before| + BLOCK] == header
            && tar[|before| + BLOCK..|before| + BLOCK + |content|] == content
  {
    var back := content + (padding + after);
    assert header + (content + padding) + after == header + back;
    Slice(before, header + back, 0, BLOCK);
    First(header, back);
    Slice(before, header + back, BLOCK, BLOCK + |content|);
    Slice(header, back, 0, |content|);
    First(content, padding + after);
  }

  predicate Room(m: Member, limits: Limits, count: nat, total: nat) {
    count < limits.maximumFiles && m.size <= limits.maximumFile && total + m.size <= limits.maximumTotal
  }

  /** The limits leave room for the members, the bytes of regular ones adding up. */
  predicate Fits(cs: seq<Chunk>, limits: Limits, count: nat, total: nat) {
    cs == [] || (Room(cs[0].member, limits, count, total) && Fits(cs[1..], limits, count + 1, total + |cs[0].member.data|))
  }

  /** Nothing more to read: fewer octets than a header, or a block of zeros. */
  predicate Ends(tail: bytes) { |tail| < BLOCK || AllZero(tail[..BLOCK]) }

  /** These members stand one behind the other from an offset on, and then nothing more. */
  ghost predicate Placed(tar: bytes, read: Reader, offset: nat, ms: seq<Member>, count: nat, total: nat)
    requires offset % BLOCK == 0
    decreases |ms|
  {
    if ms == [] then offset + BLOCK > |tar| || AllZero(tar[offset..offset + BLOCK])
    else
      && offset + BLOCK <= |tar| && !AllZero(tar[offset..offset + BLOCK])
      && read(offset, count, total) == Ok(ms[0])
      && Placed(tar, read, Next(offset, ms[0].size), ms[1..], count + 1, total + |ms[0].data|)
  }

  lemma {:induction false} PlacedParse(tar: bytes, read: Reader, offset: nat, ms: seq<Member>, members: seq<Member>, total: nat)
    requires offset % BLOCK == 0 && Placed(tar, read, offset, ms, |members|, total)
    ensures ParseFrom(tar, read, offset, members, total) == Ok(members + ms)
    decreases |ms|
  {
    if ms == [] {
      assert members + ms == members;
    } else {
      PlacedParse(tar, read, Next(offset, ms[0].size), ms[1..], members + [ms[0]], total + |ms[0].data|);
      assert members + [ms[0]] + ms[1..] == members + ms;
    }
  }

  predicate Stands(c: Chunk, before: bytes, after: bytes, tar: bytes) { tar == before + (c.octets + after) }

  /** Wherever the chunk stands in the archive, the reader finds its member there. */
  ghost predicate ReadsBack(c: Chunk, tar: bytes, limits: Limits, read: Reader) {
    && |c.octets| == BLOCK + PaddedSize(c.member.size)
    && forall before: bytes, after: bytes, count: nat, total: nat {:trigger Stands(c, before, after, tar), read(|before|, count, total)} ::
         Stands(c, before, after, tar) && Room(c.member, limits, count, total) ==>
           && |before| + BLOCK <= |tar| && !AllZero(tar[|before|..|before| + BLOCK])
           && read(|before|, count, total) == Ok(c.member)
  }

  lemma WrittenReadsBack(e: Entry, tar: bytes, limits: Limits, read: Reader)
    requires Admissible(e) && IsReader(tar, limits, read)
    ensures ReadsBack(Chunk(Written(e), MemberOf(e)), tar, limits, read)
  {
    var c := Chunk(Written(e), MemberOf(e));
    forall before: bytes, after: bytes, count: nat, total: nat | Stands(c, before, after, tar) && Room(c.member, limits, count, total)
      ensures |before| + BLOCK <= |tar| && !AllZero(tar[|before|..|before| + BLOCK]) && read(|before|, count, total) == Ok(c.member)
    {
      WrittenRead(before, e, after, tar, limits, read, count, total);
    }
  }

  lemma {:induction false} AllReadBack(es: seq<Entry>, tar: bytes, limits: Limits, read: Reader)
    requires (forall e | e in es :: Admissible(e)) && IsReader(tar, limits, read)
    ensures forall c | c in Chunks(es) :: ReadsBack(c, tar, limits, read)
  {
    if es != [] {
      WrittenReadsBack(es[0], tar, limits, read);
      AllReadBack(es[1..], tar, limits, read);
    }
  }

  lemma {:induction false} ChunksPlaced(
      before: bytes, cs: seq<Chunk>, tail: bytes, limits: Limits, count: nat, total: nat, tar: bytes, read: Reader)
    requires |before| % BLOCK == 0 && Ends(tail) && tar == before + Concat(cs, tail)
    requires Fits(cs, limits, count, total) && forall c | c in cs :: ReadsBack(c, tar, limits, read)
    ensures Placed(tar, read, |before|, Members(cs), count, total)
    decreases |cs|
  {
    if cs == [] {
      if |tail| >= BLOCK { Slice(before, tail, 0, BLOCK); }
    } else {
      var c, after := cs[0], Concat(cs[1..], tail);
      assert Stands(c, before, after, tar) && ReadsBack(c, tar, limits, read);
      assert read(|before|, count, total) == Ok(c.member);
      Associate(before, c.octets, after);
      AlignedSum(|before|, PaddedSize(c.member.size));
      ChunksPlaced(before + c.octets, cs[1..], tail, limits, count + 1, total + |c.member.data|, tar, read);
      OnePlaced(tar, read, |before|, c.member, Members(cs[1..]), count, total);
    }
  }

  lemma OnePlaced(tar: bytes, read: Reader, offset: nat, m: Member, ms: seq<Member>, count: nat, total: nat)
    requires offset % BLOCK == 0 && offset + BLOCK <= |tar| && !AllZero(tar[offset..offset + BLOCK])
    requires read(offset, count, total) == Ok(m) && Placed(tar, read, Next(offset, m.size), ms, count + 1, total + |m.data|)
    ensures Placed(tar, read, offset, [m] + ms, count, total)
  {
    assert ([m] + ms)[1..] == ms;
  }

  lemma Associate(a: bytes, b: bytes, c: bytes)
    ensures a + (b + c) == a + b + c
  {}

  /** What the writer wrote, the reader returns: every member, in order, whatever the skipped fields and the tail hold. */
  lemma WriterInverse(es: seq<Entry>, tail: bytes, limits: Limits)
    requires (forall e | e in es :: Admissible(e)) && Fits(Chunks(es), limits, 0, 0) && Ends(tail)
    ensures Parse(Archive(es, tail), limits) == Ok(Members(Chunks(es)))
  {
    var tar := Archive(es, tail);
    var read := ReaderOf(tar, limits);
    assert [] + tar == tar;
    assert [] + Members(Chunks(es)) == Members(Chunks(es));
    AllReadBack(es, tar, limits, read);
    ChunksPlaced([], Chunks(es), tail, limits, 0, 0, tar, read);
    PlacedParse(tar, read, 0, Members(Chunks(es)), [], 0);
  }

  lemma {:induction false} ChunkAt(es: seq<Entry>, i: nat)
    requires (forall e | e in es :: Admissible(e)) && i < |es|
    ensures |Chunks(es)| == |es| && Chunks(es)[i].member == MemberOf(es[i])
  {
    if |es| > 1 { ChunkAt(es[1..], if i == 0 then 0 else i - 1); }
  }

  lemma {:induction false} MemberAt(cs: seq<Chunk>, i: nat)
    requires i < |cs|
    ensures |Members(cs)| == |cs| && Members(cs)[i] == cs[i].member
  {
    if |cs| > 1 { MemberAt(cs[1..], if i == 0 then 0 else i - 1); }
  }

  /** The members are the entries', one for one. */
  lemma MembersAreEntries(es: seq<Entry>, i: nat)
    requires (forall e | e in es :: Admissible(e)) && i < |es|
    ensures |Members(Chunks(es))| == |es| && Members(Chunks(es))[i] == MemberOf(es[i])
  {
    ChunkAt(es, i);
    MemberAt(Chunks(es), i);
  }
}
