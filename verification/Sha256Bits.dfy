/** The words of SHA-256 bit by bit, and its constants as the roots they come from (sections 4 and 5.3.3 of FIPS 180-4). */
module Sha256Bits {
  import Bytes
  import opened Sha256

  /** Bit i of a number, the lowest one being bit 0. */
  function Bit(x: nat, i: nat): bool { if i == 0 then x % 2 == 1 else Bit(x / 2, i - 1) }

  lemma {:induction false} BitwiseBit(op: (bool, bool) -> bool, x: nat, y: nat, bits: nat, i: nat)
    requires i < bits
    ensures Bit(Bitwise(op, x, y, bits), i) == op(Bit(x, i), Bit(y, i))
  {
    var low := if op(x % 2 == 1, y % 2 == 1) then 1 else 0;
    Halves(Bitwise(op, x / 2, y / 2, bits - 1), low);
    if i > 0 { BitwiseBit(op, x / 2, y / 2, bits - 1, i - 1); }
  }

  lemma Halves(r: nat, low: nat)
    requires low < 2
    ensures (2 * r + low) / 2 == r && (2 * r + low) % 2 == low
  {}

  /** Conjunction, disjunction and exclusive or of each bit. */
  lemma OperationBits(x: Word, y: Word, i: nat)
    requires i < 32
    ensures Bit(And(x, y), i) <==> Bit(x, i) && Bit(y, i)
    ensures Bit(Or(x, y), i) <==> Bit(x, i) || Bit(y, i)
    ensures Bit(Xor(x, y), i) <==> Bit(x, i) != Bit(y, i)
  {
    BitwiseBit((p, q) => p && q, x, y, 32, i);
    BitwiseBit((p, q) => p || q, x, y, 32, i);
    BitwiseBit((p, q) => p != q, x, y, 32, i);
  }

  lemma {:induction false} ComplementBit(x: nat, bits: nat, i: nat)
    requires x < Pow2(bits) && i < bits
    ensures Bit(Pow2(bits) - 1 - x, i) <==> !Bit(x, i)
  {
    var c := Pow2(bits) - 1 - x;
    Complement(x, Pow2(bits - 1));
    if i > 0 { ComplementBit(x / 2, bits - 1, i - 1); }
  }

  lemma Complement(x: nat, half: nat)
    requires x < 2 * half
    ensures (2 * half - 1 - x) / 2 == half - 1 - x / 2 && (2 * half - 1 - x) % 2 == 1 - x % 2
  {}

  lemma NotBits(x: Word, i: nat)
    requires i < 32
    ensures Bit(Not(x), i) <==> !Bit(x, i)
  {
    Pow2Word();
    ComplementBit(x, 32, i);
  }

  lemma {:induction false} NoHighBit(x: nat, i: nat)
    requires x < Pow2(i)
    ensures !Bit(x, i)
  {
    if i > 0 { NoHighBit(x / 2, i - 1); }
  }

  lemma {:induction false} Growing(i: nat, k: nat)
    requires i <= k
    ensures Pow2(i) <= Pow2(k)
  {
    if i < k { Growing(i, k - 1); }
  }

  lemma {:induction false} ShrBits(x: Word, n: nat, i: nat)
    ensures Bit(Shr(x, n), i) <==> Bit(x, i + n)
  {
    if n > 0 { ShrBits(x / 2, n - 1, i); }
  }

  lemma {:induction false} ScaledBits(x: nat, n: nat, i: nat)
    ensures Bit(Pow2(n) * x, i) <==> i >= n && Bit(x, i - n)
  {
    if n > 0 {
      Doubled(Pow2(n - 1), x);
      if i > 0 { ScaledBits(x, n - 1, i - 1); }
    }
  }

  lemma Doubled(p: nat, x: nat)
    ensures 2 * p * x % 2 == 0 && 2 * p * x / 2 == p * x
  {
    assert 2 * p * x == 2 * (p * x);
  }

  lemma {:induction false} LowBits(x: nat, k: nat, i: nat)
    requires i < k
    ensures Bit(x % Pow2(k), i) <==> Bit(x, i)
  {
    Halved(x, Pow2(k - 1));
    if i > 0 { LowBits(x / 2, k - 1, i - 1); }
  }

  lemma Halved(x: nat, p: nat)
    requires p > 0
    ensures x % (2 * p) % 2 == x % 2 && x % (2 * p) / 2 == x / 2 % p
  {
    var q, r := x / (2 * p), x % (2 * p);
    Quotient(x, 2 * p);
    assert x == 2 * (p * q) + r;
    assert x / 2 == p * q + r / 2 && r / 2 < p;
    Remainder(p, q, r / 2);
  }

  lemma Quotient(x: nat, d: nat)
    requires d > 0
    ensures x == d * (x / d) + x % d
  {}

  /** The quotient and the remainder are the only ones. */
  lemma Remainder(p: nat, q: nat, r: nat)
    requires r < p
    ensures (p * q + r) % p == r
  {
    var n := p * q + r;
    Quotient(n, p);
    OneQuotient(p, q, r, n / p, n % p);
  }

  lemma OneQuotient(p: nat, q: nat, r: nat, u: nat, v: nat)
    requires p * q + r == p * u + v && r < p && v < p
    ensures q == u && r == v
  {
    if q < u { Larger(p, q, u); }
    if u < q { Larger(p, u, q); }
  }

  lemma Larger(p: nat, a: nat, b: nat)
    requires a < b
    ensures p * b >= p * a + p
  {
    Scaled(p, b - a);
    Spread(p, a, b - a);
  }

  lemma Spread(p: nat, a: nat, b: nat)
    ensures p * (a + b) == p * a + p * b
  {}

  lemma {:induction false} Scaled(p: nat, n: nat)
    requires n >= 1
    ensures p * n >= p
  {
    if n > 1 {
      Scaled(p, n - 1);
      Spread(p, n - 1, 1);
    }
  }

  /** A bit's place, counted around the word. */
  function Around(k: nat): nat
    requires k < 64
  {
    if k < 32 then k else k - 32
  }

  /** Rotating right by n moves bit i + n, counted around the word, to bit i. */
  lemma RotrBits(x: Word, n: nat, i: nat)
    requires n <= 32 && i < 32
    ensures Bit(Rotr(x, n), i) <==> Bit(x, Around(i + n))
  {
    var right, left := Shr(x, n), Shl(x, 32 - n);
    ShrBits(x, n, i);
    ShlBits(x, 32 - n, i);
    OperationBits(right, left, i);
    if i + n >= 32 { NoBitBeyond(x, i + n); }
  }

  lemma ShlBits(x: Word, n: nat, i: nat)
    requires i < 32
    ensures Bit(Shl(x, n), i) <==> i >= n && Bit(x, i - n)
  {
    Pow2Word();
    ScaledBits(x, n, i);
    LowBits(Pow2(n) * x, 32, i);
  }

  lemma NoBitBeyond(x: Word, i: nat)
    requires i >= 32
    ensures !Bit(x, i)
  {
    Pow2Word();
    Growing(32, i);
    NoHighBit(x, i);
  }

  lemma Xor3Bits(x: Word, y: Word, z: Word, i: nat)
    requires i < 32
    ensures Bit(Xor3(x, y, z), i) <==> (Bit(x, i) != Bit(y, i)) != Bit(z, i)
  {
    OperationBits(x, y, i);
    OperationBits(Xor(x, y), z, i);
  }

  /** Ch picks the second or the third word's bit by the first one's; Maj takes the bit two of the three have. */
  lemma ChoiceBits(x: Word, y: Word, z: Word, i: nat)
    requires i < 32
    ensures Bit(Ch(x, y, z), i) <==> if Bit(x, i) then Bit(y, i) else Bit(z, i)
    ensures Bit(Maj(x, y, z), i) <==> (Bit(x, i) && Bit(y, i)) || (Bit(x, i) && Bit(z, i)) || (Bit(y, i) && Bit(z, i))
  {
    OperationBits(x, y, i);
    OperationBits(Not(x), z, i);
    NotBits(x, i);
    OperationBits(And(x, y), And(Not(x), z), i);
    OperationBits(x, z, i);
    OperationBits(y, z, i);
    Xor3Bits(And(x, y), And(x, z), And(y, z), i);
  }

  /** The sum of three bits of a word, counted around it from bit i. */
  predicate Odd(x: Word, i: nat, a: nat, b: nat, c: nat)
    requires i < 32 && a <= 32 && b <= 32 && c <= 32
  {
    (Bit(x, Around(i + a)) != Bit(x, Around(i + b))) != Bit(x, Around(i + c))
  }

  /** The four functions of section 4.1.2, bit by bit. */
  lemma RotatedBits(x: Word, a: nat, b: nat, c: nat, i: nat)
    requires a <= 32 && b <= 32 && c <= 32 && i < 32
    ensures Bit(Xor3(Rotr(x, a), Rotr(x, b), Rotr(x, c)), i) <==> Odd(x, i, a, b, c)
  {
    Xor3Bits(Rotr(x, a), Rotr(x, b), Rotr(x, c), i);
    RotrBits(x, a, i);
    RotrBits(x, b, i);
    RotrBits(x, c, i);
  }

  lemma SumBits(x: Word, i: nat)
    requires i < 32
    ensures Bit(Sum0(x), i) <==> Odd(x, i, 2, 13, 22)
    ensures Bit(Sum1(x), i) <==> Odd(x, i, 6, 11, 25)
  {
    RotatedBits(x, 2, 13, 22, i);
    RotatedBits(x, 6, 11, 25, i);
  }

  lemma ShiftedBits(x: Word, a: nat, b: nat, c: nat, i: nat)
    requires a <= 32 && b <= 32 && i < 32
    ensures Bit(Xor3(Rotr(x, a), Rotr(x, b), Shr(x, c)), i) <==> (Bit(x, Around(i + a)) != Bit(x, Around(i + b))) != Bit(x, i + c)
  {
    Xor3Bits(Rotr(x, a), Rotr(x, b), Shr(x, c), i);
    RotrBits(x, a, i);
    RotrBits(x, b, i);
    ShrBits(x, c, i);
  }

  lemma SigmaBits(x: Word, i: nat)
    requires i < 32
    ensures Bit(Sigma0(x), i) <==> (Bit(x, Around(i + 7)) != Bit(x, Around(i + 18))) != Bit(x, i + 3)
    ensures Bit(Sigma1(x), i) <==> (Bit(x, Around(i + 17)) != Bit(x, Around(i + 19))) != Bit(x, i + 10)
  {
    ShiftedBits(x, 7, 18, 3, i);
    ShiftedBits(x, 17, 19, 10, i);
  }

  // The compression of one block (section 6.2.2).

  function Total(words: seq<Word>): nat { if words == [] then 0 else words[0] + Total(words[1..]) }

  /** The sum of words modulo 2^32. */
  function Modular(words: seq<Word>): Word { Total(words) % WORDS }

  lemma Carried(x: nat, y: nat)
    ensures (x % WORDS + y) % WORDS == (x + y) % WORDS && (y + x % WORDS) % WORDS == (x + y) % WORDS
  {}

  lemma FourTotal(a: Word, b: Word, c: Word, d: Word)
    ensures Total([a, b, c, d]) == a + b + c + d
  {
    FirstOfTotal(c, [d]);
    FirstOfTotal(b, [c] + [d]);
    FirstOfTotal(a, [b] + ([c] + [d]));
    FirstOfTotal(d, []);
    assert [d] + [] == [d] && [a, b, c, d] == [a] + ([b] + ([c] + [d]));
  }

  lemma FirstOfTotal(x: Word, words: seq<Word>)
    ensures Total([x] + words) == x + Total(words)
  {
    assert ([x] + words)[1..] == words;
  }

  lemma FourAdded(a: Word, b: Word, c: Word, d: Word)
    ensures Add(Add(Add(a, b), c), d) == Modular([a, b, c, d])
  {
    FourTotal(a, b, c, d);
    Carried(a + b, c);
    Carried(a + b + c, d);
  }

  lemma FiveAdded(a: Word, b: Word, c: Word, d: Word, e: Word)
    ensures Add(Add(Add(Add(a, b), c), d), e) == Modular([e] + [a, b, c, d])
  {
    FourAdded(a, b, c, d);
    FirstOfTotal(e, [a, b, c, d]);
    Carried(Total([a, b, c, d]), e);
  }

  lemma OneAdded(x: Word, words: seq<Word>)
    ensures Add(x, Modular(words)) == Modular([x] + words) && Add(Modular(words), x) == Modular([x] + words)
  {
    FirstOfTotal(x, words);
    Carried(Total(words), x);
  }

  lemma PairAdded(words: seq<Word>, x: Word, y: Word)
    ensures Add(Modular(words), Add(x, y)) == Modular([x] + ([y] + words))
  {
    FirstOfTotal(y, words);
    FirstOfTotal(x, [y] + words);
    var total := Total(words);
    Carried(x + y, total % WORDS);
    Carried(total, x + y);
  }

  /** One step of the schedule is a sum modulo 2^32. */
  lemma ScheduleExactly(block: Bytes.bytes, t: nat)
    requires |block| == 64 && t >= 16
    ensures Schedule(block, t) ==
            Modular([Sigma1(Schedule(block, t - 2)), Schedule(block, t - 7), Sigma0(Schedule(block, t - 15)), Schedule(block, t - 16)])
  {
    FourAdded(Sigma1(Schedule(block, t - 2)), Schedule(block, t - 7), Sigma0(Schedule(block, t - 15)), Schedule(block, t - 16));
  }

  /** The five words of the first temporary. */
  function First(v: Working, k: Word, w: Word): seq<Word> { [w] + [v.h, Sum1(v.e), Ch(v.e, v.f, v.g), k] }

  /** One round: two new words, and the others move up by one place. */
  lemma RoundExactly(v: Working, k: Word, w: Word)
    ensures var r := Round(v, k, w);
            && r.b == v.a && r.c == v.b && r.d == v.c && r.f == v.e && r.g == v.f && r.h == v.g
            && r.e == Modular([v.d] + First(v, k, w))
            && r.a == Modular([Sum0(v.a)] + ([Maj(v.a, v.b, v.c)] + First(v, k, w)))
  {
    FiveAdded(v.h, Sum1(v.e), Ch(v.e, v.f, v.g), k, w);
    OneAdded(v.d, First(v, k, w));
    PairAdded(First(v, k, w), Sum0(v.a), Maj(v.a, v.b, v.c));
  }

  function Words(v: Working): seq<Word> { [v.a, v.b, v.c, v.d, v.e, v.f, v.g, v.h] }

  /** The rounds start from the hash so far, and each of its words grows by the register it was loaded into. */
  lemma FeedForward(hash: seq<Word>, v: Working, i: nat)
    requires |hash| == 8 && i < 8
    ensures Words(Load(hash)) == hash && Added(v, hash)[i] == (Words(v)[i] + hash[i]) % WORDS
  {}

  // The constants.

  /** The word is the first 32 bits of the fraction of the prime's square root, whose whole part is given. */
  predicate SquareRoot(prime: nat, whole: nat, word: Word) {
    (whole * 0x1_0000_0000 + word) * (whole * 0x1_0000_0000 + word) <= prime * 0x1_0000_0000_0000_0000
    < (whole * 0x1_0000_0000 + word + 1) * (whole * 0x1_0000_0000 + word + 1)
  }

  /** The same of the cube root. */
  predicate CubeRoot(prime: nat, whole: nat, word: Word) {
    (whole * 0x1_0000_0000 + word) * (whole * 0x1_0000_0000 + word) * (whole * 0x1_0000_0000 + word)
    <= prime * 0x1_0000_0000_0000_0000_0000_0000
    < (whole * 0x1_0000_0000 + word + 1) * (whole * 0x1_0000_0000 + word + 1) * (whole * 0x1_0000_0000 + word + 1)
  }

  /** The initial words come from the square roots of the first eight primes. */
  lemma InitialAreRoots()
    ensures |INITIAL| == 8
    ensures SquareRoot(2, 1, INITIAL[0]) && SquareRoot(3, 1, INITIAL[1]) && SquareRoot(5, 2, INITIAL[2])
    ensures SquareRoot(7, 2, INITIAL[3]) && SquareRoot(11, 3, INITIAL[4]) && SquareRoot(13, 3, INITIAL[5])
    ensures SquareRoot(17, 4, INITIAL[6]) && SquareRoot(19, 4, INITIAL[7])
  {}

  // The round constants come from the cube roots of the first 64 primes.

  lemma RootsFrom2()
    ensures CubeRoot(2, 1, Constant(0)) && CubeRoot(3, 1, Constant(1)) && CubeRoot(5, 1, Constant(2)) && CubeRoot(7, 1, Constant(3))
    ensures CubeRoot(11, 2, Constant(4)) && CubeRoot(13, 2, Constant(5)) && CubeRoot(17, 2, Constant(6)) && CubeRoot(19, 2, Constant(7))
  {}

  lemma RootsFrom23()
    ensures CubeRoot(23, 2, Constant(8)) && CubeRoot(29, 3, Constant(9)) && CubeRoot(31, 3, Constant(10)) && CubeRoot(37, 3, Constant(11))
    ensures CubeRoot(41, 3, Constant(12)) && CubeRoot(43, 3, Constant(13)) && CubeRoot(47, 3, Constant(14)) && CubeRoot(53, 3, Constant(15))
  {}

  lemma RootsFrom59()
    ensures CubeRoot(59, 3, Constant(16)) && CubeRoot(61, 3, Constant(17)) && CubeRoot(67, 4, Constant(18)) && CubeRoot(71, 4, Constant(19))
    ensures CubeRoot(73, 4, Constant(20)) && CubeRoot(79, 4, Constant(21)) && CubeRoot(83, 4, Constant(22)) && CubeRoot(89, 4, Constant(23))
  {}

  lemma RootsFrom97()
    ensures CubeRoot(97, 4, Constant(24)) && CubeRoot(101, 4, Constant(25)) && CubeRoot(103, 4, Constant(26)) && CubeRoot(107, 4, Constant(27))
    ensures CubeRoot(109, 4, Constant(28)) && CubeRoot(113, 4, Constant(29)) && CubeRoot(127, 5, Constant(30)) && CubeRoot(131, 5, Constant(31))
  {}

  lemma RootsFrom137()
    ensures CubeRoot(137, 5, Constant(32)) && CubeRoot(139, 5, Constant(33)) && CubeRoot(149, 5, Constant(34)) && CubeRoot(151, 5, Constant(35))
    ensures CubeRoot(157, 5, Constant(36)) && CubeRoot(163, 5, Constant(37)) && CubeRoot(167, 5, Constant(38)) && CubeRoot(173, 5, Constant(39))
  {}

  lemma RootsFrom179()
    ensures CubeRoot(179, 5, Constant(40)) && CubeRoot(181, 5, Constant(41)) && CubeRoot(191, 5, Constant(42)) && CubeRoot(193, 5, Constant(43))
    ensures CubeRoot(197, 5, Constant(44)) && CubeRoot(199, 5, Constant(45)) && CubeRoot(211, 5, Constant(46)) && CubeRoot(223, 6, Constant(47))
  {}

  lemma RootsFrom227()
    ensures CubeRoot(227, 6, Constant(48)) && CubeRoot(229, 6, Constant(49)) && CubeRoot(233, 6, Constant(50)) && CubeRoot(239, 6, Constant(51))
    ensures CubeRoot(241, 6, Constant(52)) && CubeRoot(251, 6, Constant(53)) && CubeRoot(257, 6, Constant(54)) && CubeRoot(263, 6, Constant(55))
  {}

  lemma RootsFrom269()
    ensures CubeRoot(269, 6, Constant(56)) && CubeRoot(271, 6, Constant(57)) && CubeRoot(277, 6, Constant(58)) && CubeRoot(281, 6, Constant(59))
    ensures CubeRoot(283, 6, Constant(60)) && CubeRoot(293, 6, Constant(61)) && CubeRoot(307, 6, Constant(62)) && CubeRoot(311, 6, Constant(63))
  {}
}
