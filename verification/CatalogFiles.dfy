/** The files of a catalog's maintenance directory, and which backups retention keeps. */
module CatalogFiles {
  import opened Bytes
  import opened Wrappers

  datatype Path =
    | Live | Stage | Temporary | MetadataTemporary | Backup(name: bytes) | Metadata(name: bytes) | Status | StatusTemporary

  datatype Content = Partial | Catalog(data: bytes) | Info(digest: bytes, size: nat, snapshot: bytes) | Report

  type Files = map<Path, Content>

  /** Equal outside some paths. */
  ghost predicate Agree(a: Files, b: Files, touched: Path -> bool) {
    forall p: Path | !touched(p) :: (p in a <==> p in b) && (p in b ==> a[p] == b[p])
  }

  /** The names of backups that a pattern matches. */
  function Present(files: Files, matching: bytes -> bool): (names: set<bytes>)
    ensures forall n :: n in names <==> matching(n) && Backup(n) in files
  {
    set p | p in files && p.Backup? && matching(p.name) :: p.name
  }

  function Newer(names: set<bytes>, name: bytes): set<bytes> { set n | n in names && Less(name, n) }

  /** How many backups are kept; the command line refuses anything below one. */
  type Retention = n: nat | n >= 1 witness 1

  /** Retention removes a backup exactly when enough others sort behind it. */
  predicate Expired(names: set<bytes>, retention: Retention, name: bytes) { name in names && |Newer(names, name)| >= retention }

  ghost function Elements(s: seq<bytes>): set<bytes> { set i | 0 <= i < |s| :: s[i] }

  lemma {:induction false} ElementCount(s: seq<bytes>)
    requires Ascending(s)
    ensures |Elements(s)| == |s|
  {
    if s != [] {
      var n := |s| - 1;
      ElementCount(s[..n]);
      forall x ensures x in Elements(s) <==> x in Elements(s[..n]) + {s[n]} {
        if x in Elements(s[..n]) {
          var i :| 0 <= i < n && s[..n][i] == x;
          assert s[i] == x;
        }
        if x in Elements(s) && x != s[n] {
          var i :| 0 <= i < |s| && s[i] == x;
          assert s[..n][i] == x;
        }
      }
      assert Elements(s) == Elements(s[..n]) + {s[n]};
      if s[n] in Elements(s[..n]) {
        var i :| 0 <= i < n && s[..n][i] == s[n];
        LessIrreflexive(s[n]);
      }
    }
  }

  lemma NewerIsTail(names: set<bytes>, s: seq<bytes>, i: nat)
    requires Ascending(s) && i < |s| && forall n :: n in s <==> n in names
    ensures Newer(names, s[i]) == Elements(s[i + 1..])
  {
    var tail := s[i + 1..];
    forall x ensures x in Newer(names, s[i]) <==> x in Elements(tail) {
      if x in Newer(names, s[i]) {
        assert x in s;
        var j :| 0 <= j < |s| && s[j] == x;
        if j < i { LessAsymmetric(s[j], s[i]); }
        if j == i { LessIrreflexive(x); }
        assert tail[j - i - 1] == x;
      }
      if x in Elements(tail) {
        var j :| 0 <= j < |tail| && tail[j] == x;
        assert s[i + 1 + j] == x && s[i + 1 + j] in s;
      }
    }
  }

  lemma TailAscends(s: seq<bytes>, k: nat)
    requires Ascending(s) && k <= |s|
    ensures Ascending(s[k..])
  {
    forall a, b | 0 <= a < b < |s[k..]| ensures Less(s[k..][a], s[k..][b]) { assert s[k + a] == s[k..][a] && s[k + b] == s[k..][b]; }
  }

  /** In sorted order, as many names sort behind a place as there are places behind it. */
  lemma NewerCount(names: set<bytes>, i: nat)
    requires i < |InOrder(names)|
    ensures |Newer(names, InOrder(names)[i])| == |InOrder(names)| - 1 - i
  {
    NewerIsTail(names, InOrder(names), i);
    TailAscends(InOrder(names), i + 1);
    ElementCount(InOrder(names)[i + 1..]);
  }

  /** So the names that retention removes are the first of the sorted list. */
  lemma ExpiredPrefix(names: set<bytes>, retention: Retention, i: nat)
    requires i < |InOrder(names)|
    ensures Expired(names, retention, InOrder(names)[i]) <==> i < |InOrder(names)| - retention
  {
    assert InOrder(names)[i] in InOrder(names);
    NewerCount(names, i);
  }

  /** Is this a path that pruning may remove? */
  predicate ExpiredPath(names: set<bytes>, retention: Retention, p: Path) {
    (p.Backup? || p.Metadata?) && Expired(names, retention, p.name)
  }

  /** A validated copy of a catalog with metadata whose digest, size and snapshot match it. */
  predicate BackedUp(files: Files, name: bytes, data: bytes, sha: bytes -> bytes, validate: bytes -> Option<bytes>) {
    && Backup(name) in files && files[Backup(name)] == Catalog(data)
    && validate(data).Some? && Metadata(name) in files && files[Metadata(name)] == Info(sha(data), |data|, validate(data).value)
  }

  // The names a refresh gives to its backups and recognises again.

  const SUFFIX := Ascii(".sqlite")

  /** A dot, a UTC stamp (YYYYMMDDThhmmssZ), a dash and eight hexadecimal digits. */
  predicate IsToken(t: bytes) {
    && |t| == 26 && t[0] == 0x2E && t[9] == 0x54 && t[16] == 0x5A && t[17] == 0x2D
    && (forall i | 1 <= i < 16 && i != 9 :: IsDigit(t[i]))
    && (forall i | 18 <= i < 26 :: IsDigit(t[i]) || 0x61 <= t[i] <= 0x66)
  }

  lemma AsciiDigits(s: string)
    requires forall i | 0 <= i < |s| :: '0' <= s[i] <= '9'
    ensures Digits(Ascii(s))
  {}

  /** The token of a date, a time of day and eight digits. */
  function Token(date: bytes, time: bytes, last: bytes): bytes { [0x2E] + date + [0x54] + time + [0x5A, 0x2D] + last }

  lemma TokenOk(date: bytes, time: bytes, last: bytes)
    requires |date| == 8 && |time| == 6 && |last| == 8 && Digits(date) && Digits(time) && Digits(last)
    ensures IsToken(Token(date, time, last))
  {
    var t := Token(date, time, last);
    forall i | 1 <= i < 16 && i != 9 ensures IsDigit(t[i]) {
      assert t[i] == if i < 9 then date[i - 1] else time[i - 10];
    }
    forall i | 18 <= i < 26 ensures IsDigit(t[i]) { assert t[i] == last[i - 18]; }
  }

  /** The pattern of prune_refresh_backups for a database of this name. */
  predicate RefreshName(database: bytes, name: bytes) {
    |name| == |database| + 33 && name == database + name[|database|..|database| + 26] + SUFFIX && IsToken(name[|database|..|database| + 26])
  }

  lemma TokenNames(database: bytes, token: bytes)
    requires IsToken(token)
    ensures RefreshName(database, database + token + SUFFIX)
  {
    assert (database + token + SUFFIX)[|database|..|database| + 26] == token;
  }

  const HEX := Ascii("0123456789abcdef")

  lemma HexExactly(c: Byte)
    ensures c in HEX <==> IsDigit(c) || 0x61 <= c <= 0x66
  {
    forall v: nat | v < 16 ensures HEX[v] == HexDigit(v) { HexAt(v); }
    if IsDigit(c) { assert HEX[c - 0x30] == c; }
    if 0x61 <= c <= 0x66 { assert HEX[c - 0x57] == c; }
  }

  lemma HexAt(v: nat)
    requires v < 16
    ensures HEX[v] == HexDigit(v)
  {}

  /** A date of eight digits, a time of six, and eight lower-case hexadecimal digits. */
  predicate Stamp(date: bytes, time: bytes, last: bytes) {
    && |date| == 8 && Digits(date) && |time| == 6 && Digits(time)
    && |last| == 8 && forall i | 0 <= i < 8 :: last[i] in HEX
  }

  lemma StampNamed(date: bytes, time: bytes, last: bytes)
    requires Stamp(date, time, last)
    ensures IsToken(Token(date, time, last))
  {
    var t := Token(date, time, last);
    forall i | 1 <= i < 16 && i != 9 ensures IsDigit(t[i]) { assert t[i] == if i < 9 then date[i - 1] else time[i - 10]; }
    forall i | 18 <= i < 26 ensures IsDigit(t[i]) || 0x61 <= t[i] <= 0x66 {
      assert t[i] == last[i - 18];
      HexExactly(last[i - 18]);
    }
  }

  lemma TokenStamped(t: bytes)
    requires IsToken(t)
    ensures Stamp(t[1..9], t[10..16], t[18..26]) && t == Token(t[1..9], t[10..16], t[18..26])
  {
    forall i | 0 <= i < 8 ensures t[18..26][i] in HEX { HexExactly(t[18 + i]); }
    assert t == [t[0]] + t[1..9] + [t[9]] + t[10..16] + [t[16], t[17]] + t[18..26];
  }

  /** The pattern recognises exactly the database's name, a dot, date T time Z, a dash, eight hexadecimal digits and ".sqlite". */
  lemma RefreshNameExactly(database: bytes, name: bytes)
    ensures RefreshName(database, name) <==>
            exists date, time, last :: Stamp(date, time, last) &&
              name == database + (Ascii(".") + date + Ascii("T") + time + Ascii("Z-") + last) + Ascii(".sqlite")
  {
    Separators();
    if RefreshName(database, name) { TokenStamped(name[|database|..|database| + 26]); }
    if date, time, last :| Stamp(date, time, last) && name == database + (Ascii(".") + date + Ascii("T") + time + Ascii("Z-") + last) + SUFFIX {
      StampNamed(date, time, last);
      TokenNames(database, Token(date, time, last));
    }
  }

  lemma Separators()
    ensures Ascii(".") == [0x2E] && Ascii("T") == [0x54] && Ascii("Z-") == [0x5A, 0x2D]
  {}

  lemma {:induction false} LessBehind(p: bytes, a: bytes, b: bytes)
    requires Less(a, b)
    ensures Less(p + a, p + b)
  {
    if p == [] {
      assert p + a == a && p + b == b;
    } else {
      LessBehind(p[1..], a, b);
      assert (p + a)[1..] == p[1..] + a && (p + b)[1..] == p[1..] + b;
    }
  }

  lemma {:induction false} LessBefore(a: bytes, b: bytes, x: bytes, y: bytes)
    requires |a| == |b| && Less(a, b)
    ensures Less(a + x, b + y)
  {
    if a[0] == b[0] {
      LessBefore(a[1..], b[1..], x, y);
      assert (a + x)[1..] == a[1..] + x && (b + y)[1..] == b[1..] + y;
    }
  }

  /** The names of the same database sort by date. */
  lemma NamesByDate(database: bytes, a: bytes, b: bytes, time: bytes, last: bytes)
    requires |a| == |b| == 8 && Less(a, b)
    ensures Less(database + Token(a, time, last) + SUFFIX, database + Token(b, time, last) + SUFFIX)
  {
    var rest := [0x54] + time + [0x5A, 0x2D] + last + SUFFIX;
    LessBefore(a, b, rest, rest);
    LessBehind(database + [0x2E], a + rest, b + rest);
    assert database + Token(a, time, last) + SUFFIX == database + [0x2E] + (a + rest);
    assert database + Token(b, time, last) + SUFFIX == database + [0x2E] + (b + rest);
  }

  // What a refresh leaves of the backups.

  /** The matching names once a backup is published under one more. */
  function WithNew(files: Files, matching: bytes -> bool, name: bytes): set<bytes> { Present(files, matching) + {name} }

  /** Nothing has happened to a backup and its metadata. */
  predicate SameBackup(a: Files, b: Files, n: bytes) {
    && (Backup(n) in a <==> Backup(n) in b) && (Backup(n) in b ==> a[Backup(n)] == b[Backup(n)])
    && (Metadata(n) in a <==> Metadata(n) in b) && (Metadata(n) in b ==> a[Metadata(n)] == b[Metadata(n)])
  }

  predicate PrunedAt(s: Files, before: Files, names: set<bytes>, retention: Retention, name: bytes, n: bytes) {
    if Expired(names, retention, n) then Backup(n) !in s && Metadata(n) !in s else n == name || SameBackup(s, before, n)
  }

  /** The expired names are gone, and nothing has happened to any other but the published one. */
  ghost predicate Pruned(s: Files, before: Files, names: set<bytes>, retention: Retention, name: bytes) {
    forall n: bytes {:trigger PrunedAt(s, before, names, retention, name, n)} :: PrunedAt(s, before, names, retention, name, n)
  }

  function Last(s: seq<bytes>, n: nat): (r: seq<bytes>)
    ensures |r| == if |s| > n then n else |s|
    ensures forall i | |s| - |r| <= i < |s| :: r[i - (|s| - |r|)] == s[i]
  {
    if |s| > n then s[|s| - n..] else s
  }

  /** The last names of the sorted list, as many as retention keeps. */
  ghost function LastOf(names: set<bytes>, retention: Retention): seq<bytes> { Last(InOrder(names), retention) }

  lemma LastIndex(names: set<bytes>, retention: Retention, s: seq<bytes>, i: nat)
    requires s == InOrder(names) && i < |s|
    ensures i >= |s| - |Last(s, retention)| <==> !Expired(names, retention, s[i])
  {
    ExpiredPrefix(names, retention, i);
  }

  lemma InLast(s: seq<bytes>, n: nat, x: bytes) returns (i: nat)
    requires x in Last(s, n)
    ensures |s| - |Last(s, n)| <= i < |s| && s[i] == x
  {
    var k: nat :| k < |Last(s, n)| && Last(s, n)[k] == x;
    i := |s| - |Last(s, n)| + k;
    assert Last(s, n)[i - (|s| - |Last(s, n)|)] == s[i];
  }

  lemma LastAre(names: set<bytes>, retention: Retention, n: bytes)
    ensures n in LastOf(names, retention) <==> n in names && !Expired(names, retention, n)
  {
    var s := InOrder(names);
    if n in Last(s, retention) {
      var i := InLast(s, retention, n);
      LastIndex(names, retention, s, i);
    }
    if n in names {
      assert n in s;
      var i: nat :| i < |s| && s[i] == n;
      LastIndex(names, retention, s, i);
      if i >= |s| - |Last(s, retention)| { TailInLast(s, retention, i); }
    }
  }

  lemma TailInLast(s: seq<bytes>, n: nat, i: nat)
    requires |s| - |Last(s, n)| <= i < |s|
    ensures s[i] in Last(s, n)
  {
    assert Last(s, n)[i - (|s| - |Last(s, n)|)] == s[i];
  }

  /** The backups left are the last ones by name of the old ones and the new one. */
  lemma LastKept(s: Files, before: Files, matching: bytes -> bool, retention: Retention, name: bytes)
    requires matching(name) && Pruned(s, before, WithNew(before, matching, name), retention, name)
    requires !Expired(WithNew(before, matching, name), retention, name) ==> Backup(name) in s
    ensures forall n :: n in Present(s, matching) <==> n in LastOf(WithNew(before, matching, name), retention)
  {
    var names := WithNew(before, matching, name);
    forall n ensures n in Present(s, matching) <==> n in LastOf(names, retention) {
      LastAre(names, retention, n);
      assert PrunedAt(s, before, names, retention, name, n);
    }
  }
}
