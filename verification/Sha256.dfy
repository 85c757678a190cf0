/** SHA-256 (FIPS 180-4): the standard's definition, and the in-place program that computes it. */
module Sha256 {
  import opened Bytes
  import opened Record

  const WORDS := 0x1_0000_0000

  /** An unsigned 32-bit word. */
  type Word = x: int | 0 <= x < WORDS

  function Pow2(n: nat): (p: nat)
    ensures p > 0
  {
    if n == 0 then 1 else 2 * Pow2(n - 1)
  }

  /** A bitwise operation on the low bits of two numbers. */
  function Bitwise(op: (bool, bool) -> bool, x: nat, y: nat, bits: nat): (r: nat)
    ensures r < Pow2(bits)
  {
    if bits == 0 then 0
    else 2 * Bitwise(op, x / 2, y / 2, bits - 1) + if op(x % 2 == 1, y % 2 == 1) then 1 else 0
  }

  lemma Pow2Word()
    ensures Pow2(32) == WORDS
  {
    assert Pow2(10) == 1024;
    assert Pow2(20) == 1024 * 1024;
    assert Pow2(30) == 1024 * 1024 * 1024;
  }

  function Apply(op: (bool, bool) -> bool, x: Word, y: Word): Word {
    Pow2Word();
    Bitwise(op, x, y, 32)
  }

  function And(x: Word, y: Word): Word { Apply((p, q) => p && q, x, y) }
  function Or(x: Word, y: Word): Word { Apply((p, q) => p || q, x, y) }
  function Xor(x: Word, y: Word): Word { Apply((p, q) => p != q, x, y) }
  function Not(x: Word): Word { WORDS - 1 - x }

  function Shr(x: Word, n: nat): Word { if n == 0 then x else Shr(x / 2, n - 1) }
  function Shl(x: Word, n: nat): Word { Pow2(n) * x % WORDS }

  /** Addition modulo 2^32. */
  function Add(x: Word, y: Word): Word { (x + y) % WORDS }

  function Rotr(x: Word, n: nat): Word
    requires n <= 32
  {
    Or(Shr(x, n), Shl(x, 32 - n))
  }

  function Xor3(x: Word, y: Word, z: Word): Word { Xor(Xor(x, y), z) }

  function Ch(x: Word, y: Word, z: Word): Word { Xor(And(x, y), And(Not(x), z)) }
  function Maj(x: Word, y: Word, z: Word): Word { Xor3(And(x, y), And(x, z), And(y, z)) }
  function Sum0(x: Word): Word { Xor3(Rotr(x, 2), Rotr(x, 13), Rotr(x, 22)) }
  function Sum1(x: Word): Word { Xor3(Rotr(x, 6), Rotr(x, 11), Rotr(x, 25)) }
  function Sigma0(x: Word): Word { Xor3(Rotr(x, 7), Rotr(x, 18), Shr(x, 3)) }
  function Sigma1(x: Word): Word { Xor3(Rotr(x, 17), Rotr(x, 19), Shr(x, 10)) }

  // Section 4.2.2: the round constants, sixteen at a time.

  const FIRST_CONSTANTS: seq<Word> := [
    0x428a2f98, 0x71374491, 0xb5c0fbcf, 0xe9b5dba5, 0x3956c25b, 0x59f111f1, 0x923f82a4, 0xab1c5ed5,
    0xd807aa98, 0x12835b01, 0x243185be, 0x550c7dc3, 0x72be5d74, 0x80deb1fe, 0x9bdc06a7, 0xc19bf174]

  const SECOND_CONSTANTS: seq<Word> := [
    0xe49b69c1, 0xefbe4786, 0x0fc19dc6, 0x240ca1cc, 0x2de92c6f, 0x4a7484aa, 0x5cb0a9dc, 0x76f988da,
    0x983e5152, 0xa831c66d, 0xb00327c8, 0xbf597fc7, 0xc6e00bf3, 0xd5a79147, 0x06ca6351, 0x14292967]

  const THIRD_CONSTANTS: seq<Word> := [
    0x27b70a85, 0x2e1b2138, 0x4d2c6dfc, 0x53380d13, 0x650a7354, 0x766a0abb, 0x81c2c92e, 0x92722c85,
    0xa2bfe8a1, 0xa81a664b, 0xc24b8b70, 0xc76c51a3, 0xd192e819, 0xd6990624, 0xf40e3585, 0x106aa070]

  const LAST_CONSTANTS: seq<Word> := [
    0x19a4c116, 0x1e376c08, 0x2748774c, 0x34b0bcb5, 0x391c0cb3, 0x4ed8aa4a, 0x5b9cca4f, 0x682e6ff3,
    0x748f82ee, 0x78a5636f, 0x84c87814, 0x8cc70208, 0x90befffa, 0xa4506ceb, 0xbef9a3f7, 0xc67178f2]

  const CONSTANTS: seq<Word> := FIRST_CONSTANTS + SECOND_CONSTANTS + THIRD_CONSTANTS + LAST_CONSTANTS

  const INITIAL: seq<Word> := [
    0x6a09e667, 0xbb67ae85, 0x3c6ef372, 0xa54ff53a, 0x510e527f, 0x9b05688c, 0x1f83d9ab, 0x5be0cd19]

  function Constant(t: nat): Word
    requires t < 64
  {
    CONSTANTS[t]
  }

  // Section 6.2.2: the message schedule and the rounds.

  function Number(a: nat, b: nat, c: nat, d: nat): (r: nat)
    requires a < 256 && b < 256 && c < 256 && d < 256
    ensures r < WORDS
  {
    256 * (256 * (256 * a + b) + c) + d
  }

  /** A big-endian word. */
  function WordOf(quad: bytes): Word
    requires |quad| == 4
  {
    Number(quad[0], quad[1], quad[2], quad[3])
  }

  function WordAt(block: bytes, at: nat): Word
    requires at + 4 <= |block|
  {
    WordOf(block[at..at + 4])
  }

  function Next(back2: Word, back7: Word, back15: Word, back16: Word): Word {
    Add(Add(Add(Sigma1(back2), back7), Sigma0(back15)), back16)
  }

  function Schedule(block: bytes, t: nat): Word
    requires |block| == 64
    decreases t
  {
    if t < 16 then WordAt(block, 4 * t)
    else Next(Schedule(block, t - 2), Schedule(block, t - 7), Schedule(block, t - 15), Schedule(block, t - 16))
  }

  datatype Working = Working(a: Word, b: Word, c: Word, d: Word, e: Word, f: Word, g: Word, h: Word)

  function Round(v: Working, constant: Word, word: Word): Working {
    var t1 := Add(Add(Add(Add(v.h, Sum1(v.e)), Ch(v.e, v.f, v.g)), constant), word);
    var t2 := Add(Sum0(v.a), Maj(v.a, v.b, v.c));
    Working(Add(t1, t2), v.a, v.b, v.c, Add(v.d, t1), v.e, v.f, v.g)
  }

  function Rounds(v: Working, block: bytes, t: nat): Working
    requires |block| == 64 && t <= 64
  {
    if t == 0 then v else Round(Rounds(v, block, t - 1), Constant(t - 1), Schedule(block, t - 1))
  }

  function Load(hash: seq<Word>): Working
    requires |hash| == 8
  {
    Working(hash[0], hash[1], hash[2], hash[3], hash[4], hash[5], hash[6], hash[7])
  }

  function Added(v: Working, hash: seq<Word>): (r: seq<Word>)
    requires |hash| == 8
    ensures |r| == 8
  {
    [Add(v.a, hash[0]), Add(v.b, hash[1]), Add(v.c, hash[2]), Add(v.d, hash[3]),
     Add(v.e, hash[4]), Add(v.f, hash[5]), Add(v.g, hash[6]), Add(v.h, hash[7])]
  }

  function Compress(hash: seq<Word>, block: bytes): (r: seq<Word>)
    requires |hash| == 8 && |block| == 64
    ensures |r| == 8
  {
    Added(Rounds(Load(hash), block, 64), hash)
  }

  function HashBlocks(data: bytes): (r: seq<Word>)
    ensures |r| == 8
  {
    if |data| < 64 then INITIAL
    else Compress(HashBlocks(data[..|data| - 64]), data[|data| - 64..])
  }

  // Section 5.1.1: padding.

  function Octets(n: nat, count: nat): (r: bytes)
    ensures |r| == count
  {
    if count == 0 then [] else Octets(n / 256, count - 1) + [n % 256]
  }

  function NumberOf(octets: bytes): nat {
    if octets == [] then 0 else 256 * NumberOf(octets[..|octets| - 1]) + octets[|octets| - 1]
  }

  function Power(k: nat): (p: nat)
    ensures p > 0
  {
    if k == 0 then 1 else 256 * Power(k - 1)
  }

  predicate FillsBlock(n: nat, zeros: nat) { (n + 1 + zeros) % 64 == 56 }

  /** The number of zero octets that brings a message of n octets, its marker and its length field to whole blocks. */
  function ZeroCount(n: nat): (k: nat)
    ensures (n + 1 + k) % 64 == 56 && (n + 1 + k + 8) % 64 == 0
    ensures forall j: nat | j < k :: !FillsBlock(n, j)
  {
    var k := (55 - n % 64) % 64;
    k
  }

  function Zeros(k: nat): bytes { seq(k, _ => 0) }

  /** The bit length as the program's unsigned 64-bit product. */
  function BitLength(n: nat): nat { 8 * n % 0x1_0000_0000_0000_0000 }

  function Padding(n: nat): (r: bytes)
    ensures (n + |r|) % 64 == 0
  {
    var r := [0x80] + Zeros(ZeroCount(n)) + Octets(BitLength(n), 8);
    assert n + |r| == n + 1 + ZeroCount(n) + 8;
    r
  }

  function Padded(message: bytes): (r: bytes)
    ensures |r| % 64 == 0
  {
    message + Padding(|message|)
  }

  function Hash(message: bytes): (r: seq<Word>)
    ensures |r| == 8
  {
    HashBlocks(Padded(message))
  }

  // Facts about padding.

  lemma {:induction false} OctetsInverse(n: nat, count: nat)
    requires n < Power(count)
    ensures NumberOf(Octets(n, count)) == n
  {
    if count > 0 {
      assert n / 256 < Power(count - 1);
      OctetsInverse(n / 256, count - 1);
      var r := Octets(n, count);
      assert r[..|r| - 1] == Octets(n / 256, count - 1);
    }
  }

  lemma PowerEight()
    ensures Power(8) == 0x1_0000_0000_0000_0000
  {
    assert Power(4) == 0x1_0000_0000;
  }

  /** The length field holds the exact bit length precisely for the lengths the standard allows. */
  lemma LengthFieldExact(n: nat)
    ensures NumberOf(Octets(BitLength(n), 8)) == 8 * n <==> n < 0x2000_0000_0000_0000
  {
    PowerEight();
    OctetsInverse(BitLength(n), 8);
  }

  /** Padding is injective on the lengths the standard allows. */
  lemma PaddingInjective(a: bytes, b: bytes)
    requires |a| < 0x2000_0000_0000_0000 && |b| < 0x2000_0000_0000_0000
    requires Padded(a) == Padded(b)
    ensures a == b
  {
    LengthRead(a);
    LengthRead(b);
    MessageFirst(a);
    MessageFirst(b);
  }

  lemma LengthRead(a: bytes)
    requires |a| < 0x2000_0000_0000_0000
    ensures var p := Padded(a); |p| >= 8 && NumberOf(p[|p| - 8..]) == 8 * |a|
  {
    LengthField(a);
    LengthFieldExact(|a|);
  }

  lemma MessageFirst(a: bytes)
    ensures |Padded(a)| >= |a| && Padded(a)[..|a|] == a
  {}

  lemma LengthField(a: bytes)
    ensures var p := Padded(a); |p| >= 8 && p[|p| - 8..] == Octets(BitLength(|a|), 8)
  {
    var field := Octets(BitLength(|a|), 8);
    var before := a + ([0x80] + Zeros(ZeroCount(|a|)));
    assert Padded(a) == before + field;
  }

  /** n >> (8 * k) */
  function ShiftRight(n: nat, k: nat): nat {
    if k == 0 then n else ShiftRight(n / 256, k - 1)
  }

  lemma {:induction false} OctetAt(n: nat, count: nat, k: nat)
    requires k < count
    ensures Octets(n, count)[count - 1 - k] == ShiftRight(n, k) % 256
  {
    if k > 0 { OctetAt(n / 256, count - 1, k - 1); }
  }

  // The program.

  lemma AddTwice(a: Word, b: Word, c: Word)
    ensures Add(Add(a, b), c) == (a + b + c) % WORDS
  {}

  lemma AddCommutes(a: Word, b: Word)
    ensures Add(a, b) == Add(b, a)
  {}

  lemma AddAssociates(a: Word, b: Word, c: Word)
    ensures Add(Add(a, b), c) == Add(a, Add(b, c))
  {
    AddTwice(a, b, c);
    AddTwice(b, c, a);
    AddCommutes(a, Add(b, c));
  }

  lemma AddInAnyOrder(a: Word, b: Word, c: Word, d: Word)
    ensures Add(Add(Add(a, b), c), d) == Add(Add(Add(d, c), b), a)
  {
    AddAssociates(Add(a, b), c, d);
    AddAssociates(a, b, Add(c, d));
    AddCommutes(c, d);
    AddCommutes(b, Add(d, c));
    AddCommutes(a, Add(Add(d, c), b));
  }

  lemma NextInAnyOrder(back2: Word, back7: Word, back15: Word, back16: Word)
    ensures Next(back2, back7, back15, back16) == Add(Add(Add(back16, Sigma0(back15)), back7), Sigma1(back2))
  {
    AddInAnyOrder(Sigma1(back2), back7, Sigma0(back15), back16);
  }

  lemma {:induction false} OrZero(x: nat, bits: nat)
    requires x < Pow2(bits)
    ensures Bitwise((p, q) => p || q, x, 0, bits) == x
  {
    if bits > 0 { OrZero(x / 2, bits - 1); }
  }

  /** Numbers without a common bit: or-ing them adds them. */
  lemma {:induction false} OrDisjoint(x: nat, y: nat, k: nat, bits: nat)
    requires y < Pow2(k) && k <= bits && Pow2(k) * x < Pow2(bits)
    ensures Bitwise((p, q) => p || q, Pow2(k) * x, y, bits) == Pow2(k) * x + y
  {
    if k == 0 {
      OrZero(x, bits);
    } else {
      Halves(x, k);
      OrDisjoint(x, y / 2, k - 1, bits - 1);
    }
  }

  lemma Halves(x: nat, k: nat)
    requires k > 0
    ensures Pow2(k) * x == 2 * (Pow2(k - 1) * x) && Pow2(k) * x / 2 == Pow2(k - 1) * x && Pow2(k) * x % 2 == 0
  {
    var half := Pow2(k - 1) * x;
    assert Pow2(k) * x == 2 * half;
  }

  lemma OrAdds(x: nat, y: nat, k: nat, p: nat)
    requires p == Pow2(k) && k <= 32 && y < p && p * x < WORDS && y < WORDS
    ensures Or(p * x, y) == p * x + y
  {
    Pow2Word();
    OrDisjoint(x, y, k, 32);
  }

  lemma OrNumber(a: nat, b: nat, c: nat, d: nat)
    requires a < 256 && b < 256 && c < 256 && d < 256
    ensures Or(Or(Or(16777216 * a, 65536 * b), 256 * c), d) == Number(a, b, c, d)
  {
    Powers();
    OrAdds(a, 65536 * b, 24, 16777216);
    OrAdds(256 * a + b, 256 * c, 16, 65536);
    OrAdds(65536 * a + 256 * b + c, d, 8, 256);
    assert 16777216 * a + 65536 * b == 65536 * (256 * a + b);
    assert 65536 * (256 * a + b) + 256 * c == 256 * (65536 * a + 256 * b + c);
  }

  /** The shifts and ors that load a word. */
  function Shifted(quad: bytes): Word
    requires |quad| == 4
  {
    Or(Or(Or(Shl(quad[0], 24), Shl(quad[1], 16)), Shl(quad[2], 8)), quad[3])
  }

  lemma Powers()
    ensures Pow2(8) == 256 && Pow2(16) == 65536 && Pow2(24) == 16777216
  {
    assert Pow2(8) == 256;
    assert Pow2(16) == 65536;
  }

  function Times(p: nat, x: nat): nat { p * x }

  lemma ShlIs(x: Word, n: nat, p: nat)
    requires p == Pow2(n) && p * x < WORDS
    ensures Shl(x, n) == Times(p, x)
  {}

  lemma ShlQuad(a: Byte, b: Byte, c: Byte)
    ensures Shl(a, 24) == Times(16777216, a) && Shl(b, 16) == Times(65536, b) && Shl(c, 8) == Times(256, c)
  {
    Powers();
    ShlIs(a, 24, 16777216);
    ShlIs(b, 16, 65536);
    ShlIs(c, 8, 256);
  }

  lemma ShiftedIsWord(quad: bytes)
    requires |quad| == 4
    ensures Shifted(quad) == WordOf(quad)
  {
    ShlQuad(quad[0], quad[1], quad[2]);
    OrNumber(quad[0], quad[1], quad[2], quad[3]);
  }

  method LoadWord(data: bytes, at: nat) returns (word: Word)
    requires at + 4 <= |data|
    ensures word == WordAt(data, at)
  {
    ShiftedIsWord(data[at..at + 4]);
    word := Shifted(data[at..at + 4]);
  }

  lemma WordInSlice(data: bytes, offset: nat, k: nat)
    requires offset + 64 <= |data| && k + 4 <= 64
    ensures WordAt(data[offset..offset + 64], k) == WordAt(data, offset + k)
  {
    var inner := data[offset..offset + 64][k..k + 4];
    var outer := data[offset + k..offset + k + 4];
    assert |inner| == |outer| && forall i | 0 <= i < 4 :: inner[i] == data[offset + k + i] == outer[i];
  }

  method LoadBlock(data: bytes, offset: nat, words: array<Word>)
    requires offset + 64 <= |data| && words.Length == 64
    modifies words
    ensures forall t | 0 <= t < 16 :: words[t] == WordAt(data[offset..offset + 64], 4 * t)
  {
    ghost var block := data[offset..offset + 64];
    for index := 0 to 16
      invariant forall t | 0 <= t < index :: words[t] == WordAt(block, 4 * t)
    {
      WordInSlice(data, offset, 4 * index);
      words[index] := LoadWord(data, offset + 4 * index);
    }
  }

  predicate Recurs(schedule: nat -> Word, t: nat)
    requires t >= 16
  {
    schedule(t) == Next(schedule(t - 2), schedule(t - 7), schedule(t - 15), schedule(t - 16))
  }

  method ExtendSchedule(words: array<Word>, ghost schedule: nat -> Word)
    requires words.Length == 64
    requires forall t: nat | t < 16 :: words[t] == schedule(t)
    requires forall t: nat | t >= 16 :: Recurs(schedule, t)
    modifies words
    ensures forall t: nat | t < 64 :: words[t] == schedule(t)
  {
    for index := 16 to 64
      invariant forall t: nat | t < index :: words[t] == schedule(t)
    {
      var left, right := words[index - 15], words[index - 2];
      NextInAnyOrder(right, words[index - 7], left, words[index - 16]);
      assert Recurs(schedule, index);
      words[index] := Add(Add(Add(words[index - 16], Sigma0(left)), words[index - 7]), Sigma1(right));
    }
  }

  method MakeSchedule(data: bytes, offset: nat, words: array<Word>)
    requires offset + 64 <= |data| && words.Length == 64
    modifies words
    ensures forall t: nat | t < 64 :: words[t] == Schedule(data[offset..offset + 64], t)
  {
    LoadBlock(data, offset, words);
    ghost var block := data[offset..offset + 64];
    ghost var schedule := (t: nat) => Schedule(block, t);
    assert forall t: nat | t >= 16 :: Recurs(schedule, t);
    ExtendSchedule(words, schedule);
  }

  method Transform(state: array<Word>, data: bytes, offset: nat)
    requires state.Length == 8 && offset + 64 <= |data|
    modifies state
    ensures state[..] == Compress(old(state[..]), data[offset..offset + 64])
  {
    var words := new Word[64];
    MakeSchedule(data, offset, words);
    var v := RunRounds(data[offset..offset + 64], words, Load(state[..]));
    AddInto(state, v);
  }

  method RunRounds(ghost block: bytes, words: array<Word>, start: Working) returns (v: Working)
    requires |block| == 64 && words.Length == 64
    requires forall t: nat | t < 64 :: words[t] == Schedule(block, t)
    ensures v == Rounds(start, block, 64)
  {
    var a, b, c, d := start.a, start.b, start.c, start.d;
    var e, f, g, h := start.e, start.f, start.g, start.h;
    for index := 0 to 64
      invariant Working(a, b, c, d, e, f, g, h) == Rounds(start, block, index)
    {
      var temporary1 := Add(Add(Add(Add(h, Sum1(e)), Ch(e, f, g)), Constant(index)), words[index]);
      var temporary2 := Add(Sum0(a), Maj(a, b, c));
      h := g;
      g := f;
      f := e;
      e := Add(d, temporary1);
      d := c;
      c := b;
      b := a;
      a := Add(temporary1, temporary2);
    }
    v := Working(a, b, c, d, e, f, g, h);
  }

  method AddInto(state: array<Word>, v: Working)
    requires state.Length == 8
    modifies state
    ensures state[..] == Added(v, old(state[..]))
  {
    state[0] := Add(v.a, state[0]);
    state[1] := Add(v.b, state[1]);
    state[2] := Add(v.c, state[2]);
    state[3] := Add(v.d, state[3]);
    state[4] := Add(v.e, state[4]);
    state[5] := Add(v.f, state[5]);
    state[6] := Add(v.g, state[6]);
    state[7] := Add(v.h, state[7]);
  }

  lemma HashOneMore(data: bytes, block: bytes)
    requires |block| == 64
    ensures HashBlocks(data + block) == Compress(HashBlocks(data), block)
  {
    var all := data + block;
    assert all[..|all| - 64] == data && all[|all| - 64..] == block;
  }

  method WriteLength(tail: array<Byte>, paddedSize: nat, bitLength: nat)
    requires 8 <= paddedSize <= tail.Length
    modifies tail
    ensures tail[..paddedSize] == old(tail[..paddedSize - 8]) + Octets(bitLength, 8)
    ensures tail[paddedSize..] == old(tail[paddedSize..])
  {
    ghost var field := Octets(bitLength, 8);
    for index := 0 to 8
      invariant forall j | 0 <= j < paddedSize - 8 || paddedSize <= j < tail.Length :: tail[j] == old(tail[j])
      invariant forall j | 8 - index <= j < 8 :: tail[paddedSize - 8 + j] == field[j]
    {
      OctetAt(bitLength, 8, index);
      tail[paddedSize - 1 - index] := ShiftRight(bitLength, index) % 256;
    }
  }

  method FillTail(message: bytes, consumed: nat) returns (tail: array<Byte>, paddedSize: nat)
    requires consumed <= |message| < consumed + 64 && consumed % 64 == 0
    ensures fresh(tail) && tail.Length == 128 && (paddedSize == 64 || paddedSize == 128)
    ensures message[..consumed] + tail[..paddedSize] == Padded(message)
  {
    tail := new Byte[128](_ => 0);
    var remaining := |message| - consumed;
    for i := 0 to remaining
      invariant forall j | 0 <= j < i :: tail[j] == message[consumed + j]
      invariant forall j | i <= j < 128 :: tail[j] == 0
    {
      tail[i] := message[consumed + i];
    }
    tail[remaining] := 0x80;
    paddedSize := if remaining < 56 then 64 else 128;
    ghost var zeros := ZeroCount(|message|);
    ZeroCountIs(consumed, remaining);
    assert tail[..paddedSize - 8] == message[consumed..] + ([0x80] + Zeros(zeros));
    WriteLength(tail, paddedSize, BitLength(|message|));
    Reassemble(message, consumed, [0x80] + Zeros(zeros), Octets(BitLength(|message|), 8));
  }

  lemma ZeroCountIs(consumed: nat, remaining: nat)
    requires consumed % 64 == 0 && remaining < 64
    ensures remaining + 1 + ZeroCount(consumed + remaining) + 8 == if remaining < 56 then 64 else 128
  {
    assert (consumed + remaining) % 64 == remaining;
  }

  lemma Reassemble(message: bytes, consumed: nat, marker: bytes, field: bytes)
    requires consumed <= |message|
    ensures message[..consumed] + (message[consumed..] + marker + field) == message + (marker + field)
  {
    assert message == message[..consumed] + message[consumed..];
  }

  method NewState() returns (state: array<Word>)
    ensures fresh(state) && state.Length == 8 && state[..] == INITIAL
  {
    state := new Word[8](i requires 0 <= i < 8 => INITIAL[i]);
  }

  method AbsorbBlock(ghost before: bytes, data: bytes, offset: nat, state: array<Word>)
    requires offset + 64 <= |data| && state.Length == 8 && state[..] == HashBlocks(before)
    modifies state
    ensures state[..] == HashBlocks(before + data[offset..offset + 64])
  {
    HashOneMore(before, data[offset..offset + 64]);
    Transform(state, data, offset);
  }

  method HashWholeBlocks(message: bytes, state: array<Word>) returns (consumed: nat)
    requires state.Length == 8 && state[..] == INITIAL
    modifies state
    ensures consumed <= |message| < consumed + 64 && consumed % 64 == 0
    ensures state[..] == HashBlocks(message[..consumed])
  {
    consumed := 0;
    while |message| - consumed >= 64
      invariant consumed <= |message| && consumed % 64 == 0
      invariant state[..] == HashBlocks(message[..consumed])
      decreases |message| - consumed
    {
      AbsorbBlock(message[..consumed], message, consumed, state);
      assert message[..consumed] + message[consumed..consumed + 64] == message[..consumed + 64];
      consumed := consumed + 64;
    }
  }

  /** sha256_bytes: whole blocks are hashed in place, then the one or two blocks of the tail. */
  method HashInPlace(message: bytes) returns (state: array<Word>)
    ensures fresh(state) && state.Length == 8 && state[..] == Hash(message)
  {
    state := NewState();
    var consumed := HashWholeBlocks(message, state);
    var tail, paddedSize := FillTail(message, consumed);
    HashTail(message[..consumed], tail[..], paddedSize, state);
  }

  method HashTail(ghost before: bytes, tail: bytes, paddedSize: nat, state: array<Word>)
    requires |tail| == 128 && (paddedSize == 64 || paddedSize == 128)
    requires state.Length == 8 && state[..] == HashBlocks(before)
    modifies state
    ensures state[..] == HashBlocks(before + tail[..paddedSize])
  {
    AbsorbFirst(before, tail, state);
    if paddedSize == 128 { AbsorbSecond(before, tail, state); }
  }

  method AbsorbFirst(ghost before: bytes, tail: bytes, state: array<Word>)
    requires |tail| == 128 && state.Length == 8 && state[..] == HashBlocks(before)
    modifies state
    ensures state[..] == HashBlocks(before + tail[..64])
  {
    TailBlocks(before, tail);
    AbsorbBlock(before, tail, 0, state);
  }

  method AbsorbSecond(ghost before: bytes, tail: bytes, state: array<Word>)
    requires |tail| == 128 && state.Length == 8 && state[..] == HashBlocks(before + tail[..64])
    modifies state
    ensures state[..] == HashBlocks(before + tail[..128])
  {
    TailBlocks(before, tail);
    AbsorbBlock(before + tail[..64], tail, 64, state);
  }

  lemma TailBlocks(before: bytes, tail: bytes)
    requires |tail| == 128
    ensures tail[0..64] == tail[..64] && before + tail[..64] + tail[64..128] == before + tail[..128]
  {}

  // Hexadecimal text.

  function HexPair(octet: Byte): (r: bytes)
    ensures |r| == 2 && IsHex(r)
  {
    [HexDigit(octet / 16), HexDigit(octet % 16)]
  }

  predicate IsHex(s: bytes) { forall i | 0 <= i < |s| :: 0x30 <= s[i] <= 0x39 || 0x61 <= s[i] <= 0x66 }

  function HexText(octets: bytes): (r: bytes)
    ensures |r| == 2 * |octets| && IsHex(r)
  {
    if octets == [] then [] else HexText(octets[..|octets| - 1]) + HexPair(octets[|octets| - 1])
  }

  /** The hash as octets, most significant first. */
  function HashOctets(state: seq<Word>): (r: bytes)
    ensures |r| == 4 * |state|
  {
    if state == [] then [] else HashOctets(state[..|state| - 1]) + Octets(state[|state| - 1], 4)
  }

  /** SHA-256 of a byte string in hexadecimal: one of the content hashes the record model quantifies over. */
  function Sha256Text(message: bytes): Digest { HexText(HashOctets(Hash(message))) }

  lemma {:induction false} HexAppend(octets: bytes, more: Byte)
    ensures HexText(octets + [more]) == HexText(octets) + HexPair(more)
  {
    assert (octets + [more])[..|octets|] == octets;
  }

  method AppendOctet(digest: bytes, octet: Byte, ghost before: bytes) returns (r: bytes)
    requires digest == HexText(before)
    ensures r == HexText(before + [octet])
  {
    HexAppend(before, octet);
    r := digest + [HexDigit(octet / 16)];
    r := r + [HexDigit(octet % 16)];
  }

  method AppendWord(digest: bytes, word: Word, ghost before: bytes) returns (r: bytes)
    requires digest == HexText(before)
    ensures r == HexText(before + Octets(word, 4))
  {
    r := digest;
    ghost var octets := Octets(word, 4);
    assert before + octets[..0] == before;
    for i := 0 to 4
      invariant r == HexText(before + octets[..i])
    {
      OctetAt(word, 4, 3 - i);
      var octet := ShiftRight(word, 3 - i) % 256;
      assert before + octets[..i + 1] == before + octets[..i] + [octet];
      r := AppendOctet(r, octet, before + octets[..i]);
    }
    assert octets[..4] == octets;
  }

  /** sha256_bytes */
  method Sha256Bytes(message: bytes) returns (digest: bytes)
    ensures digest == Sha256Text(message)
  {
    var state := HashInPlace(message);
    digest := [];
    for i := 0 to 8
      invariant state[..] == Hash(message)
      invariant digest == HexText(HashOctets(state[..i]))
    {
      assert state[..i + 1][..i] == state[..i];
      digest := AppendWord(digest, state[i], HashOctets(state[..i]));
    }
    assert state[..8] == state[..];
  }

  lemma HexPairInverse(a: Byte, b: Byte)
    requires HexPair(a) == HexPair(b)
    ensures a == b
  {
    assert HexPair(a)[0] == HexPair(b)[0] && HexPair(a)[1] == HexPair(b)[1];
    assert a == 16 * (a / 16) + a % 16;
  }

  lemma HexSplit(a: bytes)
    requires a != []
    ensures var n := |a| - 1; HexText(a)[..2 * n] == HexText(a[..n]) && HexText(a)[2 * n..] == HexPair(a[n])
  {}

  lemma {:induction false} HexTextInverse(a: bytes, b: bytes)
    requires HexText(a) == HexText(b)
    ensures a == b
  {
    if a != [] && b != [] {
      var n := |a| - 1;
      HexSplit(a);
      HexSplit(b);
      HexTextInverse(a[..n], b[..n]);
      HexPairInverse(a[n], b[n]);
      assert a == a[..n] + [a[n]] && b == b[..n] + [b[n]];
    }
  }

  lemma {:induction false} HashOctetsInverse(a: seq<Word>, b: seq<Word>)
    requires HashOctets(a) == HashOctets(b)
    ensures a == b
  {
    if a != [] && b != [] {
      var n := |a| - 1;
      assert HashOctets(a)[..4 * n] == HashOctets(a[..n]) && HashOctets(b)[..4 * n] == HashOctets(b[..n]);
      assert HashOctets(a)[4 * n..] == Octets(a[n], 4) && HashOctets(b)[4 * n..] == Octets(b[n], 4);
      HashOctetsInverse(a[..n], b[..n]);
      assert Power(4) == WORDS;
      OctetsInverse(a[n], 4);
      OctetsInverse(b[n], 4);
      assert a == a[..n] + [a[n]] && b == b[..n] + [b[n]];
    }
  }

  /** The text loses nothing: equal digests come from equal final states. */
  lemma TextDeterminesHash(a: bytes, b: bytes)
    ensures Sha256Text(a) == Sha256Text(b) <==> Hash(a) == Hash(b)
  {
    if Sha256Text(a) == Sha256Text(b) {
      HexTextInverse(HashOctets(Hash(a)), HashOctets(Hash(b)));
      HashOctetsInverse(Hash(a), Hash(b));
    }
  }
}
