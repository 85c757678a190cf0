/** UTF-8 validation and encoding as the registry code performs them on byte strings. */
module Utf8 {
  import opened Bytes

  /** A Unicode scalar value. */
  type Scalar = v: int | 0 <= v <= 0x10FFFF && !(0xD800 <= v <= 0xDFFF)

  /** Appends one scalar value; the shifts and masks are written as division and remainder. */
  function Encode(v: Scalar): (r: bytes)
    ensures 1 <= |r| <= 4
  {
    if v <= 0x7F then [v]
    else if v <= 0x7FF then [0xC0 + v / 64, 0x80 + v % 64]
    else if v <= 0xFFFF then [0xE0 + v / 4096, 0x80 + v / 64 % 64, 0x80 + v % 64]
    else [0xF0 + v / 262144, 0x80 + v / 4096 % 64, 0x80 + v / 64 % 64, 0x80 + v % 64]
  }

  function EncodeAll(vs: seq<Scalar>): bytes {
    if vs == [] then [] else Encode(vs[0]) + EncodeAll(vs[1..])
  }

  /** The concatenations of encoded scalar values (section 4 of RFC 3629). */
  ghost predicate IsUtf8(s: bytes) {
    exists vs :: EncodeAll(vs) == s
  }

  /** A byte whose two top bits are 10. */
  predicate IsContinuation(b: Byte) { b / 64 == 2 }

  /** The number of bytes a lead byte announces; zero when it cannot lead. */
  function Announced(first: Byte): nat {
    if first <= 0x7F then 1
    else if 0xC2 <= first <= 0xDF then 2
    else if 0xE0 <= first <= 0xEF then 3
    else if 0xF0 <= first <= 0xF4 then 4
    else 0
  }

  /** The low bits of a byte: b & (m - 1) for a power of two m. */
  function Bits(b: Byte, m: int): (r: int)
    requires 0 < m
    ensures 0 <= r < m
  {
    b % m
  }

  /** The scalar value of one character, without range checks. */
  function Decoded(c: bytes): int
    requires 1 <= |c| <= 4
  {
    if |c| == 1 then c[0]
    else if |c| == 2 then Bits(c[0], 32) * 64 + Bits(c[1], 64)
    else if |c| == 3 then (Bits(c[0], 16) * 64 + Bits(c[1], 64)) * 64 + Bits(c[2], 64)
    else ((Bits(c[0], 8) * 64 + Bits(c[1], 64)) * 64 + Bits(c[2], 64)) * 64 + Bits(c[3], 64)
  }

  /** The checks made on one character. */
  predicate WellFormed(c: bytes) {
    && 1 <= |c| <= 4 && |c| == Announced(c[0])
    && (forall i | 1 <= i < |c| :: IsContinuation(c[i]))
    && (|c| == 3 ==> 0x800 <= Decoded(c) && !(0xD800 <= Decoded(c) <= 0xDFFF))
    && (|c| == 4 ==> 0x10000 <= Decoded(c) <= 0x10FFFF)
  }

  predicate StartsCharacter(s: bytes, n: nat) {
    n <= |s| && WellFormed(s[..n])
  }

  /** Validation character by character. */
  predicate Valid(s: bytes)
    decreases |s|
  {
    s == [] || (var n := Announced(s[0]); StartsCharacter(s, n) && Valid(s[n..]))
  }

  lemma EncodeTwo(v: Scalar)
    requires 0x7F < v <= 0x7FF
    ensures WellFormed(Encode(v)) && Decoded(Encode(v)) == v
  {
    var c := Encode(v);
    assert Bits(c[0], 32) == v / 64 && Bits(c[1], 64) == v % 64;
  }

  lemma EncodeThree(v: Scalar)
    requires 0x7FF < v <= 0xFFFF
    ensures WellFormed(Encode(v)) && Decoded(Encode(v)) == v
  {
    var c := Encode(v);
    assert v / 64 / 64 == v / 4096;
    assert Bits(c[0], 16) == v / 4096 && Bits(c[1], 64) == v / 64 % 64 && Bits(c[2], 64) == v % 64;
  }

  lemma EncodeFour(v: Scalar)
    requires 0xFFFF < v
    ensures WellFormed(Encode(v)) && Decoded(Encode(v)) == v
  {
    var c := Encode(v);
    assert v / 64 / 64 == v / 4096 && v / 4096 / 64 == v / 262144;
    assert Bits(c[0], 8) == v / 262144 && Bits(c[1], 64) == v / 4096 % 64;
    assert Bits(c[2], 64) == v / 64 % 64 && Bits(c[3], 64) == v % 64;
  }

  lemma EncodeWellFormed(v: Scalar)
    ensures WellFormed(Encode(v)) && Decoded(Encode(v)) == v
  {
    if 0x7F < v <= 0x7FF { EncodeTwo(v); }
    else if 0x7FF < v <= 0xFFFF { EncodeThree(v); }
    else if 0xFFFF < v { EncodeFour(v); }
  }

  lemma DecodeInvertsTwo(c: bytes)
    requires WellFormed(c) && |c| == 2
    ensures 0x80 <= Decoded(c) <= 0x7FF && Encode(Decoded(c)) == c
  {
    var v := Decoded(c);
    assert c[0] == 0xC0 + Bits(c[0], 32) && c[1] == 0x80 + Bits(c[1], 64);
    assert v / 64 == Bits(c[0], 32) && v % 64 == Bits(c[1], 64);
  }

  lemma DecodeInvertsThree(c: bytes)
    requires WellFormed(c) && |c| == 3
    ensures var v := Decoded(c); 0x800 <= v <= 0xFFFF && !(0xD800 <= v <= 0xDFFF) && Encode(v) == c
  {
    var v := Decoded(c);
    var a, b, d := Bits(c[0], 16), Bits(c[1], 64), Bits(c[2], 64);
    assert IsContinuation(c[1]) && IsContinuation(c[2]);
    assert c[0] == 0xE0 + a && c[1] == 0x80 + b && c[2] == 0x80 + d;
    assert v == (a * 64 + b) * 64 + d;
    assert v / 64 == a * 64 + b && v % 64 == d;
    assert v / 64 % 64 == b && v / 4096 == a;
  }

  lemma Quotients(a: int, b: int, d: int, e: int)
    requires 0 <= a && 0 <= b < 64 && 0 <= d < 64 && 0 <= e < 64
    ensures var v := ((a * 64 + b) * 64 + d) * 64 + e;
            v / 262144 == a && v / 4096 % 64 == b && v / 64 % 64 == d && v % 64 == e
  {
    var v := ((a * 64 + b) * 64 + d) * 64 + e;
    assert v / 64 == (a * 64 + b) * 64 + d;
    assert v / 4096 == a * 64 + b;
  }

  lemma DecodeInvertsFour(c: bytes)
    requires WellFormed(c) && |c| == 4
    ensures 0x10000 <= Decoded(c) <= 0x10FFFF && Encode(Decoded(c)) == c
  {
    FourBytes(c);
    Quotients(Bits(c[0], 8), Bits(c[1], 64), Bits(c[2], 64), Bits(c[3], 64));
    var e := Encode(Decoded(c));
    assert e[0] == c[0] && e[1] == c[1] && e[2] == c[2] && e[3] == c[3];
  }

  lemma FourBytes(c: bytes)
    requires WellFormed(c) && |c| == 4
    ensures c[0] == 0xF0 + Bits(c[0], 8) && c[1] == 0x80 + Bits(c[1], 64)
    ensures c[2] == 0x80 + Bits(c[2], 64) && c[3] == 0x80 + Bits(c[3], 64)
  {
    assert IsContinuation(c[1]) && IsContinuation(c[2]) && IsContinuation(c[3]);
  }

  lemma DecodeInverts(c: bytes)
    requires WellFormed(c)
    ensures var v := Decoded(c);
            0 <= v <= 0x10FFFF && !(0xD800 <= v <= 0xDFFF) && Encode(v) == c
  {
    if |c| == 2 { DecodeInvertsTwo(c); }
    else if |c| == 3 { DecodeInvertsThree(c); }
    else if |c| == 4 { DecodeInvertsFour(c); }
  }

  lemma {:induction false} EncodedIsValid(vs: seq<Scalar>)
    ensures Valid(EncodeAll(vs))
  {
    if vs != [] {
      EncodedIsValid(vs[1..]);
      var c, rest := Encode(vs[0]), EncodeAll(vs[1..]);
      EncodeWellFormed(vs[0]);
      assert (c + rest)[..|c|] == c && (c + rest)[|c|..] == rest;
    }
  }

  lemma FirstCharacter(s: bytes)
    requires Valid(s) && s != []
    ensures var n := Announced(s[0]); 1 <= n <= 4 && n <= |s| && WellFormed(s[..n]) && Valid(s[n..]) && s == s[..n] + s[n..]
  {
    assert StartsCharacter(s, Announced(s[0]));
    Splits(s, Announced(s[0]));
  }

  lemma Splits(s: bytes, n: nat)
    requires n <= |s|
    ensures s == s[..n] + s[n..]
  {}

  lemma CharacterThenText(c: bytes, rest: bytes)
    requires WellFormed(c) && Valid(rest)
    ensures Valid(c + rest)
  {
    var s := c + rest;
    assert s[0] == c[0] && s[..|c|] == c && s[|c|..] == rest;
  }

  lemma {:induction false} ValidIsEncoded(s: bytes) returns (vs: seq<Scalar>)
    requires Valid(s)
    ensures EncodeAll(vs) == s
    decreases |s|
  {
    if s == [] { return []; }
    FirstCharacter(s);
    var n := Announced(s[0]);
    DecodeInverts(s[..n]);
    var rest := ValidIsEncoded(s[n..]);
    vs := [Decoded(s[..n]) as Scalar] + rest;
    assert vs[1..] == rest;
  }

  /** The validator accepts exactly the encodings of scalar values. */
  lemma ValidExactly(s: bytes)
    ensures Valid(s) <==> IsUtf8(s)
  {
    if Valid(s) { var vs := ValidIsEncoded(s); }
    if IsUtf8(s) {
      var vs :| EncodeAll(vs) == s;
      EncodedIsValid(vs);
    }
  }

  /** What the accumulated value holds after the first `index` continuation bytes. */
  ghost function Accumulated(first: Byte, count: nat, index: nat, s: bytes): int
    requires index <= 3 && index < |s|
  {
    var lead := Bits(first, if count == 1 then 32 else if count == 2 then 16 else 8);
    if index == 0 then lead
    else if index == 1 then lead * 64 + Bits(s[1], 64)
    else if index == 2 then (lead * 64 + Bits(s[1], 64)) * 64 + Bits(s[2], 64)
    else ((lead * 64 + Bits(s[1], 64)) * 64 + Bits(s[2], 64)) * 64 + Bits(s[3], 64)
  }

  /** One character of valid_utf8 behind an ASCII test: its length, or zero if it is malformed. */
  method CheckCharacter(input: bytes, start: nat) returns (length: nat)
    requires start < |input| && input[start] > 0x7F
    ensures length == if StartsCharacter(input[start..], Announced(input[start])) then Announced(input[start]) else 0
  {
    ghost var s := input[start..];
    var first := input[start];
    var position := start + 1;
    var continuationCount: nat, value: int;
    if 0xC2 <= first <= 0xDF {
      continuationCount, value := 1, Bits(first, 32);
    } else if 0xE0 <= first <= 0xEF {
      continuationCount, value := 2, Bits(first, 16);
    } else if 0xF0 <= first <= 0xF4 {
      continuationCount, value := 3, Bits(first, 8);
    } else {
      return 0;
    }
    if position + continuationCount > |input| { return 0; }
    var index := 0;
    while index < continuationCount
      invariant 0 <= index <= continuationCount <= 3
      invariant position == start + 1 + index
      invariant forall i | 1 <= i < index + 1 :: IsContinuation(s[i])
      invariant value == Accumulated(first, continuationCount, index, s)
    {
      var continuation := input[position];
      position := position + 1;
      assert continuation == s[index + 1];
      if !IsContinuation(continuation) {
        assert s[..continuationCount + 1][index + 1] == continuation;
        return 0;
      }
      value := value * 64 + Bits(continuation, 64);
      index := index + 1;
    }
    AccumulatedIsDecoded(s, continuationCount);
    if (continuationCount == 2 && (value < 0x800 || 0xD800 <= value <= 0xDFFF))
       || (continuationCount == 3 && (value < 0x10000 || value > 0x10FFFF)) {
      return 0;
    }
    return continuationCount + 1;
  }

  lemma AccumulatedIsDecoded(s: bytes, count: nat)
    requires 1 <= count <= 3 && count < |s|
    ensures Accumulated(s[0], count, count, s) == Decoded(s[..count + 1])
  {}

  /** valid_utf8: one pass with a position, an accumulated value and a continuation count. */
  method ValidUtf8(input: bytes) returns (valid: bool)
    ensures valid <==> IsUtf8(input)
  {
    ValidExactly(input);
    var position := 0;
    assert input[0..] == input;
    while position < |input|
      invariant 0 <= position <= |input|
      invariant Valid(input) == Valid(input[position..])
    {
      ghost var s := input[position..];
      if input[position] <= 0x7F {
        assert s[1..] == input[position + 1..] && WellFormed(s[..1]);
        position := position + 1;
      } else {
        var length := CheckCharacter(input, position);
        if length == 0 { return false; }
        assert s[length..] == input[position + length..];
        position := position + length;
      }
    }
    return true;
  }

  lemma {:induction false} ValidConcat(a: bytes, b: bytes)
    requires Valid(a) && Valid(b)
    ensures Valid(a + b)
    decreases |a|
  {
    if a == [] {
      assert a + b == b;
    } else {
      FirstCharacter(a);
      var n := Announced(a[0]);
      ValidConcat(a[n..], b);
      CharacterThenText(a[..n], a[n..] + b);
      Regroup(a[..n], a[n..], b);
    }
  }

  lemma Regroup(a: bytes, b: bytes, c: bytes)
    ensures a + b + c == a + (b + c)
  {}

  lemma CutFront(a: bytes, c: bytes, n: nat)
    requires n <= |a|
    ensures (a + c)[..n] == a[..n] && (a + c)[n..] == a[n..] + c
  {}

  /** An ASCII byte is never inside a character, so valid text splits there. */
  lemma {:induction false} SplitAtAscii(a: bytes, c: Byte, b: bytes)
    requires c < 0x80
    requires Valid(a + [c] + b)
    ensures Valid(a) && Valid(b)
    decreases |a|
  {
    var s := a + [c] + b;
    if a == [] {
      assert s[1..] == b;
    } else {
      var n := Announced(s[0]);
      FirstCharacter(s);
      NoAsciiInside(s, |a|);
      Regroup(a, [c], b);
      CutFront(a, [c] + b, n);
      Regroup(a[n..], [c], b);
      SplitAtAscii(a[n..], c, b);
      CharacterThenText(a[..n], a[n..]);
      assert a == a[..n] + a[n..];
    }
  }

  lemma NoAsciiInside(s: bytes, i: nat)
    requires Valid(s) && 0 < i < |s| && s[i] < 0x80
    ensures Announced(s[0]) <= i
  {
    var n := Announced(s[0]);
    forall j | 1 <= j < n ensures s[j] >= 0x80 { assert s[..n][j] == s[j] && IsContinuation(s[..n][j]); }
  }

  lemma ValidAscii(s: bytes)
    requires forall i | 0 <= i < |s| :: s[i] < 0x80
    ensures Valid(s)
  {
    if s != [] { ValidAscii(s[1..]); }
  }
}
