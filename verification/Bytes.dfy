/** Byte strings, and the order in which std::map<std::string, ...> keeps its keys. */
module Bytes {
  type Byte = x: int | 0 <= x < 256
  type bytes = seq<Byte>

  /** The bytes of an ASCII literal. */
  function Ascii(s: string): (b: bytes)
    ensures |b| == |s|
    ensures forall i | 0 <= i < |s| :: b[i] == s[i] as int % 128
  {
    seq(|s|, i requires 0 <= i < |s| => s[i] as int % 128)
  }

  predicate IsDigit(c: Byte) { 0x30 <= c <= 0x39 }

  predicate Digits(s: bytes) { forall i | 0 <= i < |s| :: IsDigit(s[i]) }

  const CAPITALS := Ascii("ABCDEFGHIJKLMNOPQRSTUVWXYZ")
  const SMALLS := Ascii("abcdefghijklmnopqrstuvwxyz")
  const DIGITS := Ascii("0123456789")

  lemma CapitalAt(i: nat)
    requires i < 26
    ensures CAPITALS[i] == 0x41 + i
  {}

  lemma SmallAt(i: nat)
    requires i < 26
    ensures SMALLS[i] == 0x61 + i
  {}

  lemma DigitAt(i: nat)
    requires i < 10
    ensures DIGITS[i] == 0x30 + i
  {}

  /** The codes of a run of characters are what stands in its table. */
  lemma InTable(c: Byte, table: bytes, first: Byte)
    requires forall i | 0 <= i < |table| :: table[i] == first + i
    ensures c in table <==> first <= c < first + |table|
  {
    if first <= c < first + |table| { assert table[c - first] == c; }
  }

  lemma CharactersExactly(c: Byte)
    ensures IsDigit(c) <==> c in DIGITS
    ensures 0x41 <= c <= 0x5A <==> c in CAPITALS
    ensures 0x61 <= c <= 0x7A <==> c in SMALLS
  {
    forall i: nat | i < 10 ensures DIGITS[i] == 0x30 + i { DigitAt(i); }
    forall i: nat | i < 26 ensures CAPITALS[i] == 0x41 + i { CapitalAt(i); }
    forall i: nat | i < 26 ensures SMALLS[i] == 0x61 + i { SmallAt(i); }
    InTable(c, DIGITS, 0x30);
    InTable(c, CAPITALS, 0x41);
    InTable(c, SMALLS, 0x61);
  }

  function HexDigit(v: nat): (c: Byte)
    requires v < 16
    ensures 0x30 <= c <= 0x39 || 0x61 <= c <= 0x66
  {
    if v < 10 then 0x30 + v else 0x61 + (v - 10)
  }

  /** std::string's operator<: unsigned bytes, lexicographically. */
  predicate Less(a: bytes, b: bytes) {
    b != [] && (a == [] || a[0] < b[0] || (a[0] == b[0] && Less(a[1..], b[1..])))
  }

  lemma {:induction false} LessIrreflexive(a: bytes)
    ensures !Less(a, a)
  {
    if a != [] { LessIrreflexive(a[1..]); }
  }

  lemma {:induction false} LessTransitive(a: bytes, b: bytes, c: bytes)
    requires Less(a, b) && Less(b, c)
    ensures Less(a, c)
  {
    if a != [] && a[0] == b[0] == c[0] { LessTransitive(a[1..], b[1..], c[1..]); }
  }

  lemma {:induction false} LessTotal(a: bytes, b: bytes)
    ensures a == b || Less(a, b) || Less(b, a)
  {
    if a != [] && b != [] && a[0] == b[0] {
      LessTotal(a[1..], b[1..]);
      if a[1..] == b[1..] { assert a == [a[0]] + a[1..] == b; }
    }
  }

  lemma LessAsymmetric(a: bytes, b: bytes)
    requires Less(a, b)
    ensures !Less(b, a) && a != b
  {
    LessIrreflexive(a);
    if Less(b, a) { LessTransitive(a, b, a); }
  }

  /** a is a proper prefix of b, or has the smaller byte where the two first differ. */
  ghost predicate Precedes(a: bytes, b: bytes, n: nat) {
    n <= |a| && n < |b| && a[..n] == b[..n] && (n == |a| || a[n] < b[n])
  }

  lemma {:induction false} LessSound(a: bytes, b: bytes) returns (n: nat)
    requires Less(a, b)
    ensures Precedes(a, b, n)
  {
    n := 0;
    if a != [] && a[0] == b[0] {
      var k := LessSound(a[1..], b[1..]);
      n := k + 1;
      assert a[..n] == [a[0]] + a[1..][..k] && b[..n] == [b[0]] + b[1..][..k];
    }
  }

  lemma {:induction false} LessComplete(a: bytes, b: bytes, n: nat)
    requires Precedes(a, b, n)
    ensures Less(a, b)
  {
    if n > 0 {
      assert a[0] == a[..n][0] == b[..n][0] == b[0];
      assert a[1..][..n - 1] == a[..n][1..] && b[1..][..n - 1] == b[..n][1..];
      LessComplete(a[1..], b[1..], n - 1);
    }
  }

  /** One byte string is less than another exactly when some position makes it so. */
  lemma LessExactly(a: bytes, b: bytes)
    ensures Less(a, b) <==> exists n: nat :: Precedes(a, b, n)
  {
    if Less(a, b) { var n := LessSound(a, b); }
    if n: nat :| Precedes(a, b, n) { LessComplete(a, b, n); }
  }

  ghost predicate Ascending(keys: seq<bytes>) {
    forall i, j | 0 <= i < j < |keys| :: Less(keys[i], keys[j])
  }

  ghost predicate IsLeast(k: bytes, keys: set<bytes>) {
    k in keys && forall x | x in keys :: x == k || Less(k, x)
  }

  lemma {:induction false} LeastExists(keys: set<bytes>)
    requires keys != {}
    ensures exists k :: IsLeast(k, keys)
  {
    var k :| k in keys;
    var rest := keys - {k};
    assert keys == rest + {k};
    if rest == {} {
      assert IsLeast(k, keys);
    } else {
      LeastExists(rest);
      var m :| IsLeast(m, rest);
      LessTotal(k, m);
      if Less(m, k) {
        assert IsLeast(m, keys);
      } else {
        forall x | x in rest ensures Less(k, x) {
          if x != m { LessTransitive(k, m, x); }
        }
        assert IsLeast(k, keys);
      }
    }
  }

  ghost function Least(keys: set<bytes>): (k: bytes)
    requires keys != {}
    ensures IsLeast(k, keys)
  {
    LeastExists(keys);
    var k :| IsLeast(k, keys);
    k
  }

  /** The order in which a std::map with these keys is iterated. */
  ghost function InOrder(keys: set<bytes>): (r: seq<bytes>)
    ensures forall k :: k in r <==> k in keys
    ensures Ascending(r)
  {
    if keys == {} then []
    else
      var k := Least(keys);
      [k] + InOrder(keys - {k})
  }

  /** Iteration order is the only ascending arrangement of the keys. */
  lemma {:induction false} InOrderUnique(r: seq<bytes>, keys: set<bytes>)
    requires Ascending(r)
    requires forall k :: k in r <==> k in keys
    ensures r == InOrder(keys)
  {
    if r == [] {
      assert keys == {};
    } else {
      assert r[0] in keys;
      var k := Least(keys);
      assert k in r;
      var i :| 0 <= i < |r| && r[i] == k;
      if i > 0 { assert r[0] in keys; LessAsymmetric(r[0], k); }
      forall x ensures x in r[1..] <==> x in keys - {k} {
        if x in r[1..] {
          var j :| 0 <= j < |r[1..]| && r[1..][j] == x;
          assert x == r[j + 1];
          assert r[j + 1] in r;
          LessAsymmetric(r[0], r[j + 1]);
        }
        if x in keys - {k} {
          var j :| 0 <= j < |r| && r[j] == x;
          assert r[1..][j - 1] == x;
        }
      }
      forall a, b | 0 <= a < b < |r[1..]| ensures Less(r[1..][a], r[1..][b]) {
        assert r[1..][a] == r[a + 1] && r[1..][b] == r[b + 1];
      }
      InOrderUnique(r[1..], keys - {k});
      assert r == [r[0]] + r[1..];
    }
  }

  /** Places a new key among ascending ones. */
  function Insert(keys: seq<bytes>, k: bytes): (r: seq<bytes>) {
    if keys == [] then [k]
    else if Less(k, keys[0]) then [k] + keys
    else [keys[0]] + Insert(keys[1..], k)
  }

  lemma {:induction false} InsertKeepsOrder(keys: seq<bytes>, k: bytes)
    requires Ascending(keys) && k !in keys
    ensures Ascending(Insert(keys, k))
    ensures forall x :: x in Insert(keys, k) <==> x == k || x in keys
  {
    if keys == [] {
    } else if Less(k, keys[0]) {
      var r := [k] + keys;
      forall i, j | 0 <= i < j < |r| ensures Less(r[i], r[j]) {
        if i == 0 && j > 1 { LessTransitive(k, keys[0], keys[j - 1]); }
      }
    } else {
      LessTotal(k, keys[0]);
      assert keys[0] in keys;
      assert forall i | 0 <= i < |keys[1..]| :: keys[1..][i] == keys[i + 1];
      InsertKeepsOrder(keys[1..], k);
      var tail := Insert(keys[1..], k);
      forall j | 0 <= j < |tail| ensures Less(keys[0], tail[j]) {
        assert tail[j] in tail;
        if tail[j] != k {
          var i :| 0 <= i < |keys[1..]| && keys[1..][i] == tail[j];
        }
      }
      forall x ensures x in Insert(keys, k) <==> x == k || x in keys {
        assert x in keys <==> x == keys[0] || x in keys[1..];
      }
    }
  }

  /** Walks the keys of a map in iteration order. */
  method SortedKeys(keys: set<bytes>) returns (r: seq<bytes>)
    ensures r == InOrder(keys)
  {
    r := [];
    var rest := keys;
    while rest != {}
      invariant rest <= keys
      invariant Ascending(r)
      invariant forall k :: k in r <==> k in keys && k !in rest
      decreases |rest|
    {
      var k :| k in rest;
      InsertKeepsOrder(r, k);
      r := Insert(r, k);
      rest := rest - {k};
    }
    InOrderUnique(r, keys);
  }

  // std::string::find for one byte.

  /** The first position of c, or the length. */
  function IndexOf(s: bytes, c: Byte): (n: nat)
    ensures n <= |s| && (n < |s| ==> s[n] == c) && forall i | 0 <= i < n :: s[i] != c
  {
    if s == [] || s[0] == c then 0 else 1 + IndexOf(s[1..], c)
  }

  lemma {:induction false} IndexOfPrefix(a: bytes, rest: bytes, c: Byte)
    requires IndexOf(a, c) < |a|
    ensures IndexOf(a + rest, c) == IndexOf(a, c)
  {
    if a[0] != c {
      assert (a + rest)[1..] == a[1..] + rest;
      IndexOfPrefix(a[1..], rest, c);
    }
  }

  lemma {:induction false} IndexOfBeyond(a: bytes, rest: bytes, c: Byte)
    requires c !in a
    ensures IndexOf(a + rest, c) == |a| + IndexOf(rest, c)
  {
    if a == [] {
      assert a + rest == rest;
    } else {
      assert (a + rest)[1..] == a[1..] + rest;
      IndexOfBeyond(a[1..], rest, c);
    }
  }
}
