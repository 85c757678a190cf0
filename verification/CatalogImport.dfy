/** Importing ordered records into the catalog: one transaction, with its counters. */
module CatalogImport {
  import opened Bytes
  import opened Wrappers
  import opened Record
  import opened CatalogOrder

  /** The UNIQUE columns of a server version. */
  datatype Exact = Exact(name: bytes, version: bytes, digest: bytes)

  datatype Limits = Limits(records: nat, lineBytes: nat)

  datatype Stats = Stats(imported: nat, uniqueNames: nat, inserted: nat, reused: nat, changed: nat, links: nat)

  datatype ImportError = BundleInvalid | LimitExceeded | Malformed | CountMismatch | DatabaseFailed

  datatype ImportResult = AlreadyIndexed | Indexed(stats: Stats) | Refused(error: ImportError)

  function Key(e: Entry): Exact { Exact(e.name, e.version, e.digest) }

  function Keys(es: seq<Entry>): set<Exact> { set i | 0 <= i < |es| :: Key(es[i]) }

  predicate Known(keys: set<Exact>, e: Entry) { exists k | k in keys :: k.name == e.name && k.version == e.version }

  /** Entries whose exact record is not among some keys. */
  function CountNew(es: seq<Entry>, keys: set<Exact>): (n: nat)
    ensures n <= |es|
  {
    if es == [] then 0 else CountNew(es[..|es| - 1], keys) + if Key(es[|es| - 1]) in keys then 0 else 1
  }

  /** New entries whose name and version some key already has, with another digest. */
  function CountChanged(es: seq<Entry>, keys: set<Exact>): nat {
    if es == [] then 0
    else
      var e := es[|es| - 1];
      CountChanged(es[..|es| - 1], keys) + if Key(e) !in keys && Known(keys, e) then 1 else 0
  }

  /** Places of entries whose exact record is not among the keys, and of those the ones whose name and version are. */
  function NewAt(es: seq<Entry>, keys: set<Exact>): set<nat> { set i: nat | i < |es| && Exact(es[i].name, es[i].version, es[i].digest) !in keys }

  function ChangedAt(es: seq<Entry>, keys: set<Exact>): set<nat> {
    set i: nat | i < |es| && Exact(es[i].name, es[i].version, es[i].digest) !in keys && Known(keys, es[i])
  }

  /** The counters count those places. */
  lemma {:induction false} NewExactly(es: seq<Entry>, keys: set<Exact>)
    ensures CountNew(es, keys) == |NewAt(es, keys)|
  {
    if es != [] {
      var n := |es| - 1;
      NewExactly(es[..n], keys);
      assert Key(es[n]) == Exact(es[n].name, es[n].version, es[n].digest);
      var more := if Key(es[n]) in keys then {} else {n};
      assert NewAt(es, keys) == NewAt(es[..n], keys) + more;
    }
  }

  lemma {:induction false} ChangedExactly(es: seq<Entry>, keys: set<Exact>)
    ensures CountChanged(es, keys) == |ChangedAt(es, keys)|
  {
    if es != [] {
      var n := |es| - 1;
      ChangedExactly(es[..n], keys);
      assert Key(es[n]) == Exact(es[n].name, es[n].version, es[n].digest);
      var more := if Key(es[n]) !in keys && Known(keys, es[n]) then {n} else {};
      assert ChangedAt(es, keys) == ChangedAt(es[..n], keys) + more;
    }
  }

  function LinksOf(links: set<(nat, nat)>, snapshot: nat): set<(nat, nat)> { set l | l in links && l.0 == snapshot }

  ghost function LinksFor(es: seq<Entry>, servers: map<Exact, nat>, snapshot: nat): set<(nat, nat)>
    requires Keys(es) <= servers.Keys
  {
    set i | 0 <= i < |es| :: (snapshot, IdOf(es, servers, i))
  }

  function IdOf(es: seq<Entry>, servers: map<Exact, nat>, i: int): nat
    requires 0 <= i < |es| && Keys(es) <= servers.Keys
  {
    assert Key(es[i]) in Keys(es);
    servers[Key(es[i])]
  }

  predicate Injective(servers: map<Exact, nat>) { forall a, b | a in servers && b in servers && servers[a] == servers[b] :: a == b }

  /** Earlier entries of an ordered bundle have neither the exact record nor the identity of a later one. */
  lemma EarlierDiffer(es: seq<Entry>, i: nat)
    requires Ordered(es) && i < |es|
    ensures Key(es[i]) !in Keys(es[..i]) && !Known(Keys(es[..i]), es[i])
  {
    if Known(Keys(es[..i]), es[i]) {
      var k :| k in Keys(es[..i]) && k.name == es[i].name && k.version == es[i].version;
      var j :| 0 <= j < i && Key(es[..i][j]) == k;
      assert IdentityOf(es[j]) == IdentityOf(es[i]);
      LessIrreflexive(IdentityOf(es[i]));
    }
  }

  lemma KeysGrow(es: seq<Entry>, i: nat)
    requires i < |es|
    ensures Keys(es[..i + 1]) == Keys(es[..i]) + {Key(es[i])}
  {
    var more, less := es[..i + 1], es[..i];
    forall k ensures k in Keys(more) <==> k in Keys(less) + {Key(es[i])} {
      if k in Keys(less) {
        var j :| 0 <= j < i && Key(less[j]) == k;
        assert more[j] == less[j];
      }
      if k in Keys(more) && k != Key(es[i]) {
        var j :| 0 <= j < i + 1 && Key(more[j]) == k;
        assert less[j] == more[j];
      }
      assert Key(more[i]) == Key(es[i]);
    }
  }

  lemma KnownInUnion(a: set<Exact>, b: set<Exact>, e: Entry)
    ensures Known(a + b, e) <==> Known(a, e) || Known(b, e)
  {}

  ghost predicate ServersHave(es: seq<Entry>, before: map<Exact, nat>, servers: map<Exact, nat>) {
    Keys(es) <= servers.Keys == before.Keys + Keys(es) && forall k | k in before :: servers[k] == before[k]
  }

  ghost predicate LinksHave(es: seq<Entry>, servers: map<Exact, nat>, linksBefore: set<(nat, nat)>, snapshot: nat, links: set<(nat, nat)>)
    requires Keys(es) <= servers.Keys
  {
    links == linksBefore + LinksFor(es, servers, snapshot) && |LinksOf(links, snapshot)| == |es|
  }

  function StatsFor(es: seq<Entry>, keys: set<Exact>): Stats {
    Stats(|es|, Changes(es), CountNew(es, keys), |es| - CountNew(es, keys), CountChanged(es, keys), |es|)
  }

  /** How far an import has come. */
  ghost predicate Progress(
      es: seq<Entry>, before: map<Exact, nat>, linksBefore: set<(nat, nat)>, snapshot: nat,
      servers: map<Exact, nat>, links: set<(nat, nat)>, stats: Stats)
  {
    && ServersHave(es, before, servers) && LinksHave(es, servers, linksBefore, snapshot, links)
    && stats == StatsFor(es, before.Keys)
  }

  function EntryError(number: nat, limits: Limits, e: Entry, broken: bool): (r: Option<ImportError>)
    ensures r.None? ==> Readable(e)
    ensures r != Some(BundleInvalid)
  {
    if number > limits.records then Some(LimitExceeded)
    else if |e.line| > limits.lineBytes || !Readable(e) then Some(Malformed)
    else if broken then Some(DatabaseFailed)
    else None
  }

  /** A readable line within its limit, with a valid name and version and a digest. */
  predicate Fits(e: Entry, limits: Limits) {
    e.readable && ValidServerName(e.name) && ValidServerVersion(e.version) && |e.digest| > 0 && |e.line| <= limits.lineBytes
  }

  /** Nothing in the entries themselves stops an import. */
  ghost predicate Importable(es: seq<Entry>, limits: Limits) { FitUpTo(es, |es|, limits) }

  ghost predicate FitUpTo(es: seq<Entry>, n: nat, limits: Limits) {
    n <= |es| && n <= limits.records && forall i {:trigger Fits(es[i], limits)} | 0 <= i < n :: Fits(es[i], limits)
  }

  lemma EntryStops(es: seq<Entry>, i: nat, limits: Limits)
    requires i < |es| && EntryError(i + 1, limits, es[i], false).Some?
    ensures !Importable(es, limits)
  {
    assert !Fits(es[i], limits) || i >= limits.records;
  }

  /** Counters after one more entry. */
  function Counted(stats: Stats, isNew: bool, changed: bool, newName: bool): Stats {
    Stats(stats.imported + 1, stats.uniqueNames + (if newName then 1 else 0),
          stats.inserted + (if isNew then 1 else 0), stats.reused + (if isNew then 0 else 1),
          stats.changed + (if isNew && changed then 1 else 0), stats.links + 1)
  }

  lemma LinksGrow(es: seq<Entry>, i: nat, servers: map<Exact, nat>, more: map<Exact, nat>, snapshot: nat)
    requires i < |es| && Keys(es[..i]) <= servers.Keys && Keys(es[..i + 1]) <= more.Keys
    requires forall k | k in servers :: k in more && more[k] == servers[k]
    ensures Key(es[i]) in more
    ensures LinksFor(es[..i + 1], more, snapshot) == LinksFor(es[..i], servers, snapshot) + {(snapshot, more[Key(es[i])])}
  {
    var longer, shorter := es[..i + 1], es[..i];
    assert longer[i] == es[i] && IdOf(longer, more, i) == more[Key(es[i])];
    assert forall j | 0 <= j < i :: longer[j] == shorter[j] && IdOf(longer, more, j) == IdOf(shorter, servers, j);
  }

  /** The link of a new entry is not there yet, so the insert violates no primary key. */
  lemma LinkIsNew(es: seq<Entry>, i: nat, servers: map<Exact, nat>, linksBefore: set<(nat, nat)>, snapshot: nat, id: nat)
    requires Ordered(es) && i < |es| && Keys(es[..i]) <= servers.Keys && Injective(servers)
    requires forall l | l in linksBefore :: l.0 != snapshot
    requires if Key(es[i]) in servers then id == servers[Key(es[i])] else forall k | k in servers :: servers[k] != id
    ensures (snapshot, id) !in linksBefore + LinksFor(es[..i], servers, snapshot)
  {
    EarlierDiffer(es, i);
    forall j | 0 <= j < i ensures IdOf(es[..i], servers, j) != id {
      var k := Key(es[..i][j]);
      assert k in Keys(es[..i]);
      assert k in servers && k != Key(es[i]);
    }
  }

  lemma LinkCounted(links: set<(nat, nat)>, snapshot: nat, id: nat)
    requires (snapshot, id) !in links
    ensures |LinksOf(links + {(snapshot, id)}, snapshot)| == |LinksOf(links, snapshot)| + 1
  {
    assert LinksOf(links + {(snapshot, id)}, snapshot) == LinksOf(links, snapshot) + {(snapshot, id)};
  }

  lemma CountersGrow(es: seq<Entry>, i: nat, keys: set<Exact>)
    requires i < |es|
    ensures StatsFor(es[..i + 1], keys) ==
            Counted(StatsFor(es[..i], keys), Key(es[i]) !in keys, Known(keys, es[i]), i == 0 || es[i].name != es[i - 1].name)
  {
    var a, b := es[..i], es[..i + 1];
    assert b[..i] == a && b[i] == es[i];
    assert CountNew(b, keys) == CountNew(a, keys) + if Key(es[i]) in keys then 0 else 1;
    assert Changes(b) == Changes(a) + if i == 0 || es[i].name != es[i - 1].name then 1 else 0;
  }

  lemma OneMoreServer(es: seq<Entry>, i: nat, before: map<Exact, nat>, servers: map<Exact, nat>, id: nat)
    requires Ordered(es) && i < |es| && ServersHave(es[..i], before, servers)
    requires Key(es[i]) in servers ==> id == servers[Key(es[i])]
    ensures Key(es[i]) in servers <==> Key(es[i]) in before
    ensures Known(servers.Keys, es[i]) <==> Known(before.Keys, es[i])
    ensures ServersHave(es[..i + 1], before, servers[Key(es[i]) := id])
  {
    EarlierDiffer(es, i);
    KnownInUnion(before.Keys, Keys(es[..i]), es[i]);
    KeysGrow(es, i);
  }

  lemma OneMoreLink(
      es: seq<Entry>, i: nat, servers: map<Exact, nat>, linksBefore: set<(nat, nat)>, snapshot: nat, links: set<(nat, nat)>, id: nat)
    requires Ordered(es) && i < |es| && Injective(servers) && Keys(es[..i]) <= servers.Keys
    requires forall l | l in linksBefore :: l.0 != snapshot
    requires LinksHave(es[..i], servers, linksBefore, snapshot, links)
    requires if Key(es[i]) in servers then id == servers[Key(es[i])] else forall k | k in servers :: servers[k] != id
    ensures (snapshot, id) !in links
    ensures Keys(es[..i + 1]) <= servers[Key(es[i]) := id].Keys
    ensures LinksHave(es[..i + 1], servers[Key(es[i]) := id], linksBefore, snapshot, links + {(snapshot, id)})
  {
    KeysGrow(es, i);
    var more := servers[Key(es[i]) := id];
    LinksGrow(es, i, servers, more, snapshot);
    LinkIsNew(es, i, servers, linksBefore, snapshot, id);
    LinkCounted(links, snapshot, id);
    UnionStep(linksBefore, LinksFor(es[..i], servers, snapshot), (snapshot, id));
  }

  lemma UnionStep(a: set<(nat, nat)>, b: set<(nat, nat)>, x: (nat, nat))
    ensures a + b + {x} == a + (b + {x})
  {}

  lemma OneMore(
      es: seq<Entry>, i: nat, before: map<Exact, nat>, linksBefore: set<(nat, nat)>, snapshot: nat,
      servers: map<Exact, nat>, links: set<(nat, nat)>, stats: Stats, id: nat,
      serversAfter: map<Exact, nat>, linksAfter: set<(nat, nat)>, statsAfter: Stats)
    requires Ordered(es) && i < |es| && Injective(servers)
    requires forall l | l in linksBefore :: l.0 != snapshot
    requires Progress(es[..i], before, linksBefore, snapshot, servers, links, stats)
    requires if Key(es[i]) in servers then id == servers[Key(es[i])] else forall k | k in servers :: servers[k] != id
    requires serversAfter == servers[Key(es[i]) := id] && linksAfter == links + {(snapshot, id)}
    requires statsAfter == Counted(stats, Key(es[i]) !in servers, Known(servers.Keys, es[i]), i == 0 || es[i].name != es[i - 1].name)
    ensures (snapshot, id) !in links
    ensures Progress(es[..i + 1], before, linksBefore, snapshot, serversAfter, linksAfter, statsAfter)
  {
    OneMoreServer(es, i, before, servers, id);
    OneMoreLink(es, i, servers, linksBefore, snapshot, links, id);
    CountersGrow(es, i, before.Keys);
  }

  lemma Nothing(es: seq<Entry>, servers: map<Exact, nat>, links: set<(nat, nat)>, snapshot: nat)
    requires forall l | l in links :: l.0 != snapshot
    ensures Progress(es[..0], servers, links, snapshot, servers, links, Stats(0, 0, 0, 0, 0, 0))
  {
    assert Keys(es[..0]) == {} && LinksFor(es[..0], servers, snapshot) == {} && LinksOf(links, snapshot) == {};
  }

  /** A successful import, from the catalog before and after it. */
  ghost predicate Imported(
      es: seq<Entry>, before: map<Exact, nat>, linksBefore: set<(nat, nat)>, snapshot: nat,
      servers: map<Exact, nat>, links: set<(nat, nat)>, stats: Stats)
  {
    && stats.inserted + stats.reused == stats.links == stats.imported == |es|
    && stats.uniqueNames == |Names(es)|
    && stats.inserted == |NewAt(es, before.Keys)| && stats.changed == |ChangedAt(es, before.Keys)|
    && servers.Keys == before.Keys + Keys(es) && (forall k | k in before :: servers[k] == before[k])
    && |LinksOf(links, snapshot)| == |es|
    && (forall l: (nat, nat) :: l in links && l.0 == snapshot <==> l.0 == snapshot && exists k :: k in Keys(es) && servers[k] == l.1)
    && (forall l: (nat, nat) | l.0 != snapshot :: l in links <==> l in linksBefore)
  }

  lemma ImportedAll(
      es: seq<Entry>, before: map<Exact, nat>, linksBefore: set<(nat, nat)>, snapshot: nat,
      servers: map<Exact, nat>, links: set<(nat, nat)>, stats: Stats, limits: Limits)
    requires Ordered(es) && Importable(es, limits) && (forall l | l in linksBefore :: l.0 != snapshot)
    requires Progress(es, before, linksBefore, snapshot, servers, links, stats)
    ensures Imported(es, before, linksBefore, snapshot, servers, links, stats)
  {
    forall i | 0 <= i < |es| ensures NEWLINE !in es[i].name {
      assert Fits(es[i], limits);
      ReadableHasNoNewline(es[i]);
    }
    ChangesAreNames(es);
    NewExactly(es, before.Keys);
    ChangedExactly(es, before.Keys);
    forall l: (nat, nat) | l.0 == snapshot
      ensures l in LinksFor(es, servers, snapshot) <==> exists k :: k in Keys(es) && servers[k] == l.1
    {
      LinkIsFor(es, servers, snapshot, l);
    }
  }

  lemma LinkIsFor(es: seq<Entry>, servers: map<Exact, nat>, snapshot: nat, l: (nat, nat))
    requires Keys(es) <= servers.Keys && l.0 == snapshot
    ensures l in LinksFor(es, servers, snapshot) <==> exists k :: k in Keys(es) && servers[k] == l.1
  {
    if l in LinksFor(es, servers, snapshot) {
      var i :| 0 <= i < |es| && l == (snapshot, IdOf(es, servers, i));
      assert Key(es[i]) in Keys(es);
    }
    if k :| k in Keys(es) && servers[k] == l.1 {
      var i :| 0 <= i < |es| && Key(es[i]) == k;
      assert (snapshot, IdOf(es, servers, i)) == l;
    }
  }

  /** parse_registry_canonical_record, as far as the import needs it. */
  type Reader = bytes -> Entry

  ghost predicate ReadAs(lines: seq<bytes>, read: Reader, es: seq<Entry>) {
    |es| == |lines| && forall i | 0 <= i < |lines| :: es[i] == read(lines[i])
  }

  /** Does this operation of the database fail? */
  predicate FailsAt(fails: nat -> bool, k: nat) { fails(k) }

  /** None of these operations fails. */
  ghost predicate NoFailure(fails: nat -> bool, from: nat, to: nat) { forall k | from <= k < to :: !FailsAt(fails, k) }

  /** The tables and the next row numbers. */
  datatype Contents = Contents(
    snapshots: map<bytes, nat>, servers: map<Exact, nat>, links: set<(nat, nat)>, nextServer: nat, nextSnapshot: nat)

  /** No two exact records share a row, and every row number in use is below the next one. */
  ghost predicate ValidContents(c: Contents) {
    && Injective(c.servers)
    && (forall k | k in c.servers :: c.servers[k] < c.nextServer)
    && (forall s | s in c.snapshots :: c.snapshots[s] < c.nextSnapshot)
    && (forall l | l in c.links :: l.0 < c.nextSnapshot && l.1 < c.nextServer)
  }

  ghost predicate HoldsIn(
      c: Contents, es: seq<Entry>, i: nat, snapshot: nat, stats: Stats, before: map<Exact, nat>, linksBefore: set<(nat, nat)>)
  {
    && ValidContents(c) && Ordered(es) && i <= |es| && snapshot < c.nextSnapshot && (forall l | l in linksBefore :: l.0 != snapshot)
    && Progress(es[..i], before, linksBefore, snapshot, c.servers, c.links, stats)
  }

  /** HoldsIn as a function value. */
  type Kept = (Contents, nat, Stats) -> bool

  ghost predicate Keeps(kept: Kept, es: seq<Entry>, snapshot: nat, before: map<Exact, nat>, linksBefore: set<(nat, nat)>) {
    forall c: Contents, i: nat, stats: Stats {:trigger HoldsIn(c, es, i, snapshot, stats, before, linksBefore)} ::
      kept(c, i, stats) <==> HoldsIn(c, es, i, snapshot, stats, before, linksBefore)
  }

  ghost function KeptOf(es: seq<Entry>, snapshot: nat, before: map<Exact, nat>, linksBefore: set<(nat, nat)>): (kept: Kept)
    ensures Keeps(kept, es, snapshot, before, linksBefore)
  {
    (c: Contents, i: nat, stats: Stats) => HoldsIn(c, es, i, snapshot, stats, before, linksBefore)
  }

  class Catalog {
    const fails: nat -> bool
    var clock: nat
    var snapshots: map<bytes, nat>
    var servers: map<Exact, nat>
    var links: set<(nat, nat)>
    var nextServer: nat
    var nextSnapshot: nat

    ghost predicate Valid()
      reads this`snapshots, this`servers, this`links, this`nextServer, this`nextSnapshot
    {
      ValidContents(Tables())
    }

    constructor (fails: nat -> bool)
      ensures Valid() && snapshots == map[] && links == {}
    {
      this.fails := fails;
      clock, nextServer, nextSnapshot := 0, 1, 1;
      snapshots, servers, links := map[], map[], {};
    }

    /** Does the next database operation fail? */
    method Fails() returns (b: bool)
      modifies this`clock
      ensures b == FailsAt(fails, old(clock)) && clock == old(clock) + 1
    {
      b := FailsAt(fails, clock);
      clock := clock + 1;
    }

    /** The row of an exact record: the one there is, or a new one. */
    method FindOrInsert(e: Entry) returns (id: nat, isNew: bool)
      requires Valid()
      modifies this`servers, this`nextServer
      ensures Valid() && servers == old(servers)[Key(e) := id]
      ensures isNew <==> Key(e) !in old(servers)
      ensures if isNew then forall k | k in old(servers) :: old(servers)[k] != id else id == old(servers)[Key(e)]
      ensures id < nextServer
    {
      isNew := Key(e) !in servers;
      if isNew {
        id := nextServer;
        servers := servers[Key(e) := id];
        nextServer := nextServer + 1;
      } else {
        id := servers[Key(e)];
        assert servers == servers[Key(e) := id];
      }
    }

    /** One round of the import loop. */
    method ImportOne(
        ghost es: seq<Entry>, ghost i: nat, e: Entry, newName: bool, snapshot: nat, stats: Stats,
        ghost before: map<Exact, nat>, ghost linksBefore: set<(nat, nat)>)
      returns (r: Stats)
      requires Valid() && Ordered(es) && i < |es| && e == es[i] && snapshot < nextSnapshot
      requires newName <==> i == 0 || e.name != es[i - 1].name
      requires forall l | l in linksBefore :: l.0 != snapshot
      requires Progress(es[..i], before, linksBefore, snapshot, servers, links, stats)
      modifies this`servers, this`links, this`nextServer
      ensures Valid() && Progress(es[..i + 1], before, linksBefore, snapshot, servers, links, r)
    {
      ghost var serversBefore := servers;
      var changed := Known(servers.Keys, e);
      var id, isNew := FindOrInsert(e);
      r := Counted(stats, isNew, changed, newName);
      OneMore(es, i, before, linksBefore, snapshot, serversBefore, links, stats, id, servers, links + {(snapshot, id)}, r);
      AddLink(snapshot, id);
    }

    /** Insert a link that is not there yet. */
    method AddLink(snapshot: nat, id: nat)
      requires Valid() && snapshot < nextSnapshot && id < nextServer && (snapshot, id) !in links
      modifies this`links
      ensures Valid() && links == old(links) + {(snapshot, id)}
    {
      links := links + {(snapshot, id)};
    }

    /** Read one line and check what may stop the import. */
    method CheckLine(lines: seq<bytes>, read: Reader, ghost es: seq<Entry>, i: nat, limits: Limits)
      returns (error: Option<ImportError>, e: Entry)
      requires ReadAs(lines, read, es) && i < |lines| && FitUpTo(es, i, limits)
      modifies this`clock
      ensures clock == old(clock) + 1
      ensures error.None? ==> e == es[i] && e.name != [] && FitUpTo(es, i + 1, limits) && !FailsAt(fails, old(clock))
      ensures error.Some? && !FailsAt(fails, old(clock)) ==> !Importable(es, limits)
      ensures error != Some(BundleInvalid)
    {
      var broken := Fails();
      e := read(lines[i]);
      error := EntryError(i + 1, limits, e, broken);
      if error.None? {
        ReadableHasNoNewline(e);
      } else if !broken {
        EntryStops(es, i, limits);
      }
    }

    /** The catalog with the first i entries imported into a new snapshot. */
    ghost predicate Holds(es: seq<Entry>, i: nat, snapshot: nat, stats: Stats, before: map<Exact, nat>, linksBefore: set<(nat, nat)>)
      reads this`snapshots, this`servers, this`links, this`nextServer, this`nextSnapshot
    {
      HoldsIn(Tables(), es, i, snapshot, stats, before, linksBefore)
    }

    /** Import one checked entry. */
    method ImportNext(ghost es: seq<Entry>, ghost i: nat, e: Entry, previous: bytes, snapshot: nat, stats: Stats,
                      ghost before: map<Exact, nat>, ghost linksBefore: set<(nat, nat)>) returns (r: Stats)
      requires Holds(es, i, snapshot, stats, before, linksBefore) && i < |es| && e == es[i] && e.name != []
      requires previous == if i == 0 then [] else es[i - 1].name
      modifies this`servers, this`links, this`nextServer
      ensures Holds(es, i + 1, snapshot, r, before, linksBefore)
    {
      r := ImportOne(es, i, e, e.name != previous, snapshot, stats, before, linksBefore);
    }

    ghost function Tables(): Contents
      reads this`snapshots, this`servers, this`links, this`nextServer, this`nextSnapshot
    {
      Contents(snapshots, servers, links, nextServer, nextSnapshot)
    }

    /** One line: checked, and imported if nothing stops it. */
    method ImportRound(
        lines: seq<bytes>, read: Reader, ghost es: seq<Entry>, i: nat, previous: bytes, snapshot: nat, stats: Stats, limits: Limits,
        ghost before: map<Exact, nat>, ghost linksBefore: set<(nat, nat)>, ghost kept: Kept)
      returns (error: Option<ImportError>, r: Stats, name: bytes)
      requires ReadAs(lines, read, es) && i < |lines| && FitUpTo(es, i, limits) && Keeps(kept, es, snapshot, before, linksBefore)
      requires kept(Tables(), i, stats) && previous == if i == 0 then [] else es[i - 1].name
      modifies this`clock, this`servers, this`links, this`nextServer
      ensures Valid() && error != Some(BundleInvalid) && clock == old(clock) + 1
      ensures error.None? ==>
                kept(Tables(), i + 1, r) && FitUpTo(es, i + 1, limits) && name == es[i].name && !FailsAt(fails, old(clock))
      ensures error.Some? && !FailsAt(fails, old(clock)) ==> !Importable(es, limits)
    {
      assert HoldsIn(Tables(), es, i, snapshot, stats, before, linksBefore);
      var e;
      error, e := CheckLine(lines, read, es, i, limits);
      r, name := stats, e.name;
      if error.None? {
        r := ImportNext(es, i, e, previous, snapshot, stats, before, linksBefore);
        assert HoldsIn(Tables(), es, i + 1, snapshot, r, before, linksBefore);
      }
    }

    /** The loop over the canonical lines. */
    method ImportAll(lines: seq<bytes>, read: Reader, ghost es: seq<Entry>, snapshot: nat, limits: Limits,
                     ghost before: map<Exact, nat>, ghost linksBefore: set<(nat, nat)>, ghost kept: Kept)
      returns (error: Option<ImportError>, stats: Stats)
      requires ReadAs(lines, read, es) && Keeps(kept, es, snapshot, before, linksBefore)
      requires Valid() && kept(Tables(), 0, Stats(0, 0, 0, 0, 0, 0))
      modifies this`clock, this`servers, this`links, this`nextServer
      ensures Valid() && error != Some(BundleInvalid)
      ensures old(clock) <= clock
      ensures error.None? ==> kept(Tables(), |es|, stats) && Importable(es, limits)
      ensures error.None? ==> clock == old(clock) + |es| && NoFailure(fails, old(clock), clock)
      ensures error.Some? && NoFailure(fails, old(clock), clock) ==> !Importable(es, limits)
    {
      error, stats := None, Stats(0, 0, 0, 0, 0, 0);
      var i := 0;
      var previous: bytes := [];
      while i < |lines|
        invariant i <= |es| == |lines| && error.None? && FitUpTo(es, i, limits)
        invariant Valid() && kept(Tables(), i, stats)
        invariant clock == old(clock) + i && NoFailure(fails, old(clock), clock)
        invariant previous == if i == 0 then [] else es[i - 1].name
      {
        error, stats, previous := ImportRound(lines, read, es, i, previous, snapshot, stats, limits, before, linksBefore, kept);
        if error.Some? { return; }
        i := i + 1;
      }
    }

    /** The loop, and whether one of the last operations fails. */
    method ImportAndClose(lines: seq<bytes>, read: Reader, ghost es: seq<Entry>, snapshot: nat, limits: Limits,
                          ghost before: map<Exact, nat>, ghost linksBefore: set<(nat, nat)>, ghost kept: Kept)
      returns (error: Option<ImportError>, stats: Stats, broken: bool)
      requires ReadAs(lines, read, es) && Keeps(kept, es, snapshot, before, linksBefore)
      requires Valid() && kept(Tables(), 0, Stats(0, 0, 0, 0, 0, 0))
      modifies this`clock, this`servers, this`links, this`nextServer
      ensures Valid() && error != Some(BundleInvalid) && old(clock) <= clock
      ensures error.None? ==> kept(Tables(), |es|, stats) && Importable(es, limits)
      ensures error.None? && !broken ==> clock == old(clock) + |es| + 1 && NoFailure(fails, old(clock), clock)
      ensures NoFailure(fails, old(clock), clock) ==> !broken && (error.Some? ==> !Importable(es, limits))
    {
      error, stats := ImportAll(lines, read, es, snapshot, limits, before, linksBefore, kept);
      broken := Fails();
    }

    /** The loop, and then the two counts against the manifest. */
    method ImportCounted(lines: seq<bytes>, read: Reader, ghost es: seq<Entry>, snapshot: nat, unique: nat, limits: Limits)
      returns (error: Option<ImportError>, stats: Stats)
      requires ReadAs(lines, read, es) && |es| == unique
      requires Holds(es, 0, snapshot, Stats(0, 0, 0, 0, 0, 0), servers, links)
      modifies this`clock, this`servers, this`links, this`nextServer
      ensures Valid() && error != Some(BundleInvalid)
      ensures error.None? ==> Imported(es, old(servers), old(links), snapshot, servers, links, stats) && Importable(es, limits)
      ensures old(clock) <= clock
      ensures error.None? ==> clock == old(clock) + |es| + 1 && NoFailure(fails, old(clock), clock)
      ensures error.Some? && NoFailure(fails, old(clock), clock) ==> !Importable(es, limits)
    {
      ghost var before, linksBefore := servers, links;
      ghost var kept := KeptOf(es, snapshot, before, linksBefore);
      assert HoldsIn(Tables(), es, 0, snapshot, Stats(0, 0, 0, 0, 0, 0), before, linksBefore);
      var broken;
      error, stats, broken := ImportAndClose(lines, read, es, snapshot, limits, before, linksBefore, kept);
      if error.None? {
        assert HoldsIn(Tables(), es, |es|, snapshot, stats, before, linksBefore);
        HeldAll(es, snapshot, stats, before, linksBefore, limits);
        error := CountError(unique, snapshot, stats, broken);
      }
    }

    lemma HeldAll(es: seq<Entry>, snapshot: nat, stats: Stats, before: map<Exact, nat>, linksBefore: set<(nat, nat)>, limits: Limits)
      requires Holds(es, |es|, snapshot, stats, before, linksBefore) && Importable(es, limits)
      ensures Imported(es, before, linksBefore, snapshot, servers, links, stats)
    {
      assert es[..|es|] == es;
      ImportedAll(es, before, linksBefore, snapshot, servers, links, stats, limits);
    }

    /** The transaction behind the checks. */
    method Import(lines: seq<bytes>, read: Reader, ghost es: seq<Entry>, digest: bytes, unique: nat, limits: Limits)
      returns (r: ImportResult)
      requires Valid() && ReadAs(lines, read, es) && Ordered(es) && |lines| == unique && digest !in snapshots
      modifies this`clock, this`snapshots, this`servers, this`links, this`nextServer, this`nextSnapshot
      ensures Valid() && r != AlreadyIndexed && r != Refused(BundleInvalid)
      ensures !r.Indexed? ==> snapshots == old(snapshots) && servers == old(servers) && links == old(links)
      ensures r.Indexed? ==> Importable(es, limits)
      ensures r.Indexed? ==> Imported(es, old(servers), old(links), old(nextSnapshot), servers, links, r.stats)
      ensures r.Indexed? ==> snapshots == old(snapshots)[digest := old(nextSnapshot)]
      ensures old(clock) <= clock
      ensures r.Indexed? ==> clock == old(clock) + |es| + 1 && NoFailure(fails, old(clock), clock)
      ensures r.Refused? && NoFailure(fails, old(clock), clock) ==> !Importable(es, limits)
    {
      var beforeSnapshots, beforeServers, beforeLinks, server := snapshots, servers, links, nextServer;
      var snapshot := nextSnapshot;
      snapshots := snapshots[digest := snapshot];
      nextSnapshot := nextSnapshot + 1;
      Nothing(es, servers, links, snapshot);
      var error, stats := ImportCounted(lines, read, es, snapshot, unique, limits);
      if error.Some? {
        snapshots, servers, links, nextServer, nextSnapshot := beforeSnapshots, beforeServers, beforeLinks, server, snapshot;
        return Refused(error.value);
      }
      return Indexed(stats);
    }

    /** The two counts against the manifest, and what may fail in the commit. */
    function CountError(unique: nat, snapshot: nat, stats: Stats, broken: bool): Option<ImportError>
      reads this`links
    {
      if stats.imported != unique then Some(CountMismatch)
      else if |LinksOf(links, snapshot)| != unique || broken then Some(DatabaseFailed)
      else None
    }
  }
}
