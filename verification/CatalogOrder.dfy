/** Records ordered by name, newline and version: equal names stand together. */
module CatalogOrder {
  import opened Bytes
  import opened Record

  /** One canonical record as the importer reads it; readable is false when a member is missing or malformed. */
  datatype Entry = Entry(name: bytes, version: bytes, digest: bytes, line: bytes, readable: bool)

  function IdentityOf(e: Entry): bytes { e.name + [NEWLINE] + e.version }

  ghost predicate Ordered(es: seq<Entry>) {
    forall i, j | 0 <= i < j < |es| :: Less(IdentityOf(es[i]), IdentityOf(es[j]))
  }

  predicate Readable(e: Entry) {
    e.readable && ValidServerName(e.name) && ValidServerVersion(e.version) && e.digest != []
  }

  function Names(es: seq<Entry>): set<bytes> { set i | 0 <= i < |es| :: es[i].name }

  /** How often the name differs from the one before it, the first one being compared with nothing. */
  function Changes(es: seq<Entry>): nat {
    if es == [] then 0
    else Changes(es[..|es| - 1]) + if |es| == 1 || es[|es| - 1].name != es[|es| - 2].name then 1 else 0
  }

  lemma {:induction false} NewlineAt(name: bytes, rest: bytes)
    requires NEWLINE !in name
    ensures IndexOf(name + [NEWLINE] + rest, NEWLINE) == |name|
  {
    IndexOfBeyond(name, [NEWLINE] + rest, NEWLINE);
    assert name + [NEWLINE] + rest == name + ([NEWLINE] + rest);
  }

  /** What lies between two texts with a common prefix has it too. */
  lemma {:induction false} BetweenPrefix(p: bytes, a: bytes, b: bytes, c: bytes)
    requires p <= a && p <= c && Less(a, b) && Less(b, c)
    ensures p <= b
  {
    if p != [] {
      assert a[0] == p[0] && c[0] == p[0];
      assert b[0] == p[0];
      BetweenPrefix(p[1..], a[1..], b[1..], c[1..]);
      assert b == [b[0]] + b[1..] && p == [p[0]] + p[1..];
    }
  }

  lemma NamesBetween(a: Entry, b: Entry, c: Entry)
    requires NEWLINE !in a.name && NEWLINE !in b.name && a.name == c.name
    requires Less(IdentityOf(a), IdentityOf(b)) && Less(IdentityOf(b), IdentityOf(c))
    ensures b.name == a.name
  {
    var p := a.name + [NEWLINE];
    BetweenPrefix(p, IdentityOf(a), IdentityOf(b), IdentityOf(c));
    NewlineAt(b.name, b.version);
    var rest := IdentityOf(b)[|p|..];
    assert IdentityOf(b) == a.name + [NEWLINE] + rest;
    NewlineAt(a.name, rest);
    assert b.name == IdentityOf(b)[..|b.name|] && a.name == IdentityOf(b)[..|a.name|];
  }

  /** A name seen before is the name just before. */
  lemma SeenIsPrevious(es: seq<Entry>)
    requires |es| > 1 && Ordered(es) && forall i | 0 <= i < |es| :: NEWLINE !in es[i].name
    ensures es[|es| - 1].name in Names(es[..|es| - 1]) <==> es[|es| - 1].name == es[|es| - 2].name
  {
    var n := |es| - 1;
    var before := es[..n];
    if es[n].name in Names(before) {
      var i :| 0 <= i < n && before[i].name == es[n].name;
      if i < n - 1 { NamesBetween(es[i], es[n - 1], es[n]); }
    }
    assert before[n - 1].name in Names(before);
  }

  /** Counting changes of name between neighbours counts the distinct names. */
  lemma {:induction false} ChangesAreNames(es: seq<Entry>)
    requires Ordered(es) && forall i | 0 <= i < |es| :: NEWLINE !in es[i].name
    ensures Changes(es) == |Names(es)|
  {
    if es != [] {
      var before := es[..|es| - 1];
      assert Ordered(before) && forall i | 0 <= i < |before| :: before[i] == es[i];
      ChangesAreNames(before);
      NamesGrow(es);
      if |es| > 1 {
        SeenIsPrevious(es);
      } else {
        assert before == [];
      }
    }
  }

  lemma NamesGrow(es: seq<Entry>)
    requires es != []
    ensures Names(es) == Names(es[..|es| - 1]) + {es[|es| - 1].name}
  {
    var n := |es| - 1;
    forall x ensures x in Names(es) <==> x in Names(es[..n]) + {es[n].name} {
      if x in Names(es[..n]) {
        var i :| 0 <= i < n && es[..n][i].name == x;
        assert es[i].name == x;
      }
      if x in Names(es) && x != es[n].name {
        var i :| 0 <= i < |es| && es[i].name == x;
        assert es[..n][i].name == x;
      }
    }
  }

  lemma ReadableHasNoNewline(e: Entry)
    requires Readable(e)
    ensures NEWLINE !in e.name && e.name != []
  {
    var slash :| 0 < slash < |e.name| - 1 && SlashedAt(e.name, slash);
  }
}
