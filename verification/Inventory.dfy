/** Comparing two tool inventories by merging their sorted lists. */
module Inventory {
  import opened Bytes

  datatype Tool = Tool(name: bytes, definition: bytes)

  datatype Inventory = Inventory(executable: bytes, tools: seq<Tool>)

  datatype Diff = Diff(executableChanged: bool, added: seq<bytes>, removed: seq<bytes>, modified: seq<bytes>)

  /** Sorted by name, no name twice. */
  ghost predicate Strict(tools: seq<Tool>) {
    forall i, j | 0 <= i < j < |tools| :: Less(tools[i].name, tools[j].name)
  }

  lemma {:induction false} AdjacentIsStrict(tools: seq<Tool>, i: nat, j: nat)
    requires forall k | 0 < k < |tools| :: Less(tools[k - 1].name, tools[k].name)
    requires i < j < |tools|
    ensures Less(tools[i].name, tools[j].name)
    decreases j
  {
    if i < j - 1 {
      AdjacentIsStrict(tools, i, j - 1);
      LessTransitive(tools[i].name, tools[j - 1].name, tools[j].name);
    }
  }

  /** The parser's two checks: sorted, then no equal neighbours. */
  method CheckTools(tools: seq<Tool>) returns (ok: bool)
    ensures ok <==> Strict(tools)
  {
    if tools == [] { return true; }
    for i := 1 to |tools|
      invariant forall k | 0 < k < i :: !Less(tools[k].name, tools[k - 1].name)
    {
      if Less(tools[i].name, tools[i - 1].name) {
        if Strict(tools) { LessAsymmetric(tools[i].name, tools[i - 1].name); }
        return false;
      }
    }
    for i := 1 to |tools|
      invariant forall k | 0 < k < i :: tools[k - 1].name != tools[k].name
    {
      if tools[i - 1].name == tools[i].name {
        LessIrreflexive(tools[i].name);
        return false;
      }
    }
    forall k | 0 < k < |tools| ensures Less(tools[k - 1].name, tools[k].name) { LessTotal(tools[k - 1].name, tools[k].name); }
    forall i, j | 0 <= i < j < |tools| ensures Less(tools[i].name, tools[j].name) { AdjacentIsStrict(tools, i, j); }
    return true;
  }

  function Names(tools: seq<Tool>): set<bytes> { set i | 0 <= i < |tools| :: tools[i].name }

  /** A name in both lists whose definitions differ. */
  predicate Differs(before: seq<Tool>, after: seq<Tool>, name: bytes) {
    exists i, j :: 0 <= i < |before| && 0 <= j < |after| && before[i].name == name == after[j].name && before[i].definition != after[j].definition
  }

  /** Names that come out of a merge so far: in order, and nothing missing. */
  ghost predicate Collected(out: seq<bytes>, from: seq<Tool>, n: nat, wanted: bytes -> bool)
    requires n <= |from|
  {
    && (forall i, j | 0 <= i < j < |out| :: Less(out[i], out[j]))
    && (forall i | 0 <= i < |out| :: exists k :: 0 <= k < n && from[k].name == out[i] && wanted(out[i]))
    && (forall k | 0 <= k < n && wanted(from[k].name) :: from[k].name in out)
  }

  lemma CollectMore(out: seq<bytes>, from: seq<Tool>, n: nat, wanted: bytes -> bool)
    requires Strict(from) && n < |from| && Collected(out, from, n, wanted)
    ensures Collected(if wanted(from[n].name) then out + [from[n].name] else out, from, n + 1, wanted)
  {
    var name := from[n].name;
    if wanted(name) {
      var more := out + [name];
      forall i | 0 <= i < |out| ensures Less(out[i], name) {
        var k :| 0 <= k < n && from[k].name == out[i] && wanted(out[i]);
      }
      assert more[|out|] == name;
    }
  }

  /** Every name of one list up to a place sorts before every name of the other from a place on. */
  ghost predicate Behind(a: seq<Tool>, i: nat, b: seq<Tool>, j: nat)
    requires i <= |a| && j <= |b|
  {
    forall k, l | 0 <= k < i && j <= l < |b| :: Less(a[k].name, b[l].name)
  }

  lemma NotInOther(a: seq<Tool>, i: nat, b: seq<Tool>, j: nat)
    requires Strict(a) && Strict(b) && i < |a| && j <= |b| && Behind(b, j, a, i)
    requires j < |b| ==> Less(a[i].name, b[j].name)
    ensures a[i].name !in Names(b) && Behind(a, i, b, j) ==> Behind(a, i + 1, b, j)
    ensures a[i].name !in Names(b)
  {
    forall l | 0 <= l < |b| ensures b[l].name != a[i].name && (l >= j ==> Less(a[i].name, b[l].name)) {
      if l < j {
        LessIrreflexive(b[l].name);
      } else {
        if l > j { LessTransitive(a[i].name, b[j].name, b[l].name); }
        LessIrreflexive(a[i].name);
      }
    }
  }

  function InBoth(before: seq<Tool>, after: seq<Tool>): bytes -> bool { (name: bytes) => Differs(before, after, name) }

  function NotIn(tools: seq<Tool>): bytes -> bool { (name: bytes) => name !in Names(tools) }

  /** The merge so far: both lists read up to a place, everything read sorting before everything unread. */
  ghost predicate Merged(before: seq<Tool>, i: nat, after: seq<Tool>, j: nat, added: seq<bytes>, removed: seq<bytes>, modified: seq<bytes>)
    requires i <= |before| && j <= |after|
  {
    && Behind(before, i, after, j) && Behind(after, j, before, i)
    && Collected(added, after, j, NotIn(before)) && Collected(removed, before, i, NotIn(after))
    && Collected(modified, before, i, InBoth(before, after))
  }

  lemma TakeOld(before: seq<Tool>, i: nat, after: seq<Tool>, j: nat, added: seq<bytes>, removed: seq<bytes>, modified: seq<bytes>)
    requires Strict(before) && Strict(after) && i < |before| && j <= |after|
    requires Merged(before, i, after, j, added, removed, modified)
    requires j < |after| ==> Less(before[i].name, after[j].name)
    ensures Merged(before, i + 1, after, j, added, removed + [before[i].name], modified)
  {
    NotInOther(before, i, after, j);
    CollectMore(removed, before, i, NotIn(after));
    assert !Differs(before, after, before[i].name);
    CollectMore(modified, before, i, InBoth(before, after));
  }

  lemma TakeNew(before: seq<Tool>, i: nat, after: seq<Tool>, j: nat, added: seq<bytes>, removed: seq<bytes>, modified: seq<bytes>)
    requires Strict(before) && Strict(after) && i <= |before| && j < |after|
    requires Merged(before, i, after, j, added, removed, modified)
    requires i < |before| ==> Less(after[j].name, before[i].name)
    ensures Merged(before, i, after, j + 1, added + [after[j].name], removed, modified)
  {
    NotInOther(after, j, before, i);
    CollectMore(added, after, j, NotIn(before));
  }

  lemma DiffersHere(before: seq<Tool>, i: nat, after: seq<Tool>, j: nat)
    requires Strict(before) && Strict(after) && i < |before| && j < |after| && before[i].name == after[j].name
    ensures Differs(before, after, before[i].name) <==> before[i].definition != after[j].definition
  {
    forall k | 0 <= k < |before| && before[k].name == before[i].name ensures k == i { LessIrreflexive(before[i].name); }
    forall l | 0 <= l < |after| && after[l].name == after[j].name ensures l == j { LessIrreflexive(after[j].name); }
  }

  lemma TakeBoth(before: seq<Tool>, i: nat, after: seq<Tool>, j: nat, added: seq<bytes>, removed: seq<bytes>, modified: seq<bytes>)
    requires Strict(before) && Strict(after) && i < |before| && j < |after| && before[i].name == after[j].name
    requires Merged(before, i, after, j, added, removed, modified)
    ensures Merged(before, i + 1, after, j + 1, added, removed,
                   if before[i].definition != after[j].definition then modified + [before[i].name] else modified)
  {
    assert before[i].name in Names(after) && after[j].name in Names(before);
    CollectMore(removed, before, i, NotIn(after));
    CollectMore(added, after, j, NotIn(before));
    DiffersHere(before, i, after, j);
    CollectMore(modified, before, i, InBoth(before, after));
  }

  /** A list of names that is in order and holds exactly the names wanted. */
  ghost predicate Exactly(out: seq<bytes>, wanted: bytes -> bool) {
    (forall i, j | 0 <= i < j < |out| :: Less(out[i], out[j])) && forall name :: name in out <==> wanted(name)
  }

  datatype Side = Old | New | Both

  /** Which list the merge reads next. */
  method NextSide(olds: seq<Tool>, i: nat, news: seq<Tool>, j: nat) returns (side: Side)
    requires i <= |olds| && j <= |news| && (i < |olds| || j < |news|)
    ensures match side
            case Old => i < |olds| && (j < |news| ==> Less(olds[i].name, news[j].name))
            case New => j < |news| && (i < |olds| ==> Less(news[j].name, olds[i].name))
            case Both => i < |olds| && j < |news| && olds[i].name == news[j].name
  {
    if i == |olds| { return New; }
    if j == |news| { return Old; }
    if Less(olds[i].name, news[j].name) { return Old; }
    if Less(news[j].name, olds[i].name) { return New; }
    LessTotal(olds[i].name, news[j].name);
    return Both;
  }

  lemma AllMerged(before: seq<Tool>, after: seq<Tool>, added: seq<bytes>, removed: seq<bytes>, modified: seq<bytes>)
    requires Merged(before, |before|, after, |after|, added, removed, modified)
    ensures Exactly(added, name => name in Names(after) && name !in Names(before))
    ensures Exactly(removed, name => name in Names(before) && name !in Names(after))
    ensures Exactly(modified, name => Differs(before, after, name))
  {
    forall name ensures name in added <==> name in Names(after) && name !in Names(before) {}
  }

  /** compare_inventories on lists the parser accepts: the set differences by name, and the common names that differ. */
  method CompareInventories(before: Inventory, after: Inventory) returns (diff: Diff)
    requires Strict(before.tools) && Strict(after.tools)
    ensures diff.executableChanged <==> before.executable != after.executable
    ensures Exactly(diff.added, name => name in Names(after.tools) && name !in Names(before.tools))
    ensures Exactly(diff.removed, name => name in Names(before.tools) && name !in Names(after.tools))
    ensures Exactly(diff.modified, name => Differs(before.tools, after.tools, name))
  {
    var olds, news := before.tools, after.tools;
    var added: seq<bytes>, removed: seq<bytes>, modified: seq<bytes> := [], [], [];
    var i, j := 0, 0;
    while i < |olds| || j < |news|
      invariant i <= |olds| && j <= |news| && Merged(olds, i, news, j, added, removed, modified)
      decreases |olds| - i + |news| - j
    {
      var side := NextSide(olds, i, news, j);
      match side
      case New =>
        TakeNew(olds, i, news, j, added, removed, modified);
        added := added + [news[j].name];
        j := j + 1;
      case Old =>
        TakeOld(olds, i, news, j, added, removed, modified);
        removed := removed + [olds[i].name];
        i := i + 1;
      case Both =>
        TakeBoth(olds, i, news, j, added, removed, modified);
        if olds[i].definition != news[j].definition { modified := modified + [olds[i].name]; }
        i, j := i + 1, j + 1;
    }
    AllMerged(olds, news, added, removed, modified);
    diff := Diff(before.executable != after.executable, added, removed, modified);
  }
}
