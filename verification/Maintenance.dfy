/** Replacing the live catalog: staged, validated, backed up, pruned and swapped, with every file state on record. */
module Maintenance {
  import opened Bytes
  import opened Wrappers
  import opened CatalogFiles

  /** What the refresh command leaves: the staged catalog, whether its checks passed, the snapshot digest it reports. */
  datatype Tool = Tool(staged: Option<bytes>, bundleOk: bool, digest: Option<bytes>, countsMatch: bool)

  function StageOnly(): Path -> bool { (p: Path) => p == Stage }

  function Publishing(name: bytes): Path -> bool {
    (p: Path) => p == Temporary || p == MetadataTemporary || p == Backup(name) || p == Metadata(name)
  }

  function Pruning(names: set<bytes>, retention: Retention): Path -> bool { (p: Path) => ExpiredPath(names, retention, p) }

  function Finishing(): Path -> bool { (p: Path) => p == Stage || p == Status || p == StatusTemporary }

  /** A stretch of steps: where it began, what was on record then, and the paths it may change. */
  datatype Phase = Phase(before: Files, recorded: seq<Files>, touched: Path -> bool)

  /** The slice of the sorted names that is removed holds exactly the expired ones. */
  lemma ExpiredAre(names: set<bytes>, retention: Retention, removed: seq<bytes>)
    requires removed == if |InOrder(names)| > retention then InOrder(names)[..|InOrder(names)| - retention] else []
    ensures forall n :: n in removed <==> Expired(names, retention, n)
  {
    var s := InOrder(names);
    forall n ensures n in removed <==> Expired(names, retention, n) {
      if n in removed {
        var i: nat :| i < |removed| && removed[i] == n;
        ExpiredPrefix(names, retention, i);
      }
      if Expired(names, retention, n) {
        assert n in s;
        var i: nat :| i < |s| && s[i] == n;
        ExpiredPrefix(names, retention, i);
        assert removed[i] == n;
      }
    }
  }

  ghost predicate SameLive(a: Files, b: Files) { (Live in a <==> Live in b) && (Live in b ==> a[Live] == b[Live]) }

  /** Publishing one backup adds its name, which does not sort behind itself. */
  lemma PresentAfter(before: Files, after: Files, matching: bytes -> bool, name: bytes)
    requires Agree(after, before, Publishing(name)) && Backup(name) in after && matching(name)
    ensures name in Present(after, matching)
    ensures Newer(Present(after, matching), name) == Newer(Present(before, matching), name)
  {
    LessIrreflexive(name);
    forall n | n != name ensures n in Present(after, matching) <==> n in Present(before, matching) {
      assert !Publishing(name)(Backup(n));
    }
  }

  lemma PresentWithNew(before: Files, after: Files, matching: bytes -> bool, name: bytes)
    requires Agree(after, before, Publishing(name)) && Backup(name) in after && matching(name)
    ensures Present(after, matching) == WithNew(before, matching, name)
  {
    forall n | n != name ensures n in Present(after, matching) <==> n in Present(before, matching) {
      assert !Publishing(name)(Backup(n));
    }
  }

  /** The published backup is the only new name and the only backup touched. */
  lemma OnlyPublished(before: Files, after: Files, matching: bytes -> bool, name: bytes)
    requires Agree(after, before, Publishing(name)) && Backup(name) in after && matching(name)
    ensures Present(after, matching) == WithNew(before, matching, name)
    ensures Newer(Present(after, matching), name) == Newer(Present(before, matching), name)
    ensures forall n | n != name :: SameBackup(after, before, n)
  {
    PresentAfter(before, after, matching, name);
    PresentWithNew(before, after, matching, name);
    BackupsAgree(after, before, Publishing(name), name);
  }

  lemma NewerWithNew(before: Files, matching: bytes -> bool, name: bytes)
    ensures Newer(WithNew(before, matching, name), name) == Newer(Present(before, matching), name)
  {
    LessIrreflexive(name);
  }

  /** Pruning removes the expired backups and does nothing to the others. */
  lemma PruningPrunes(before: Files, after: Files, names: set<bytes>, retention: Retention, name: bytes)
    requires Agree(after, before, Pruning(names, retention))
    requires forall n | Expired(names, retention, n) :: Backup(n) !in after && Metadata(n) !in after
    ensures Pruned(after, before, names, retention, name)
  {
    forall n: bytes ensures PrunedAt(after, before, names, retention, name, n) {
      if !Expired(names, retention, n) {
        assert !Pruning(names, retention)(Backup(n)) && !Pruning(names, retention)(Metadata(n));
      }
    }
  }

  /** What was done before, away from the other backups, does not matter. */
  lemma PrunedFromEarlier(s: Files, middle: Files, before: Files, names: set<bytes>, retention: Retention, name: bytes)
    requires Pruned(s, middle, names, retention, name) && forall n | n != name :: SameBackup(middle, before, n)
    ensures Pruned(s, before, names, retention, name)
  {
    forall n: bytes ensures PrunedAt(s, before, names, retention, name, n) {
      assert PrunedAt(s, middle, names, retention, name, n);
      if n != name { assert SameBackup(middle, before, n); }
    }
  }

  /** Nor what is done afterwards. */
  lemma PrunedStill(t: Files, s: Files, before: Files, names: set<bytes>, retention: Retention, name: bytes)
    requires Pruned(s, before, names, retention, name) && forall n: bytes :: SameBackup(t, s, n)
    ensures Pruned(t, before, names, retention, name)
  {
    forall n: bytes ensures PrunedAt(t, before, names, retention, name, n) {
      assert PrunedAt(s, before, names, retention, name, n);
      assert SameBackup(t, s, n);
    }
  }

  /** A stretch of steps that touches no backup under some names leaves those alone. */
  lemma BackupsAgree(a: Files, b: Files, touched: Path -> bool, name: bytes)
    requires Agree(a, b, touched)
    requires forall n: bytes | n != name :: !touched(Backup(n)) && !touched(Metadata(n))
    ensures forall n | n != name :: SameBackup(a, b, n)
  {}

  /** A published backup survives pruning exactly when it is not expired. */
  lemma BackupSurvives(
      before: Files, after: Files, names: set<bytes>, retention: Retention, name: bytes, data: bytes,
      sha: bytes -> bytes, validate: bytes -> Option<bytes>)
    requires BackedUp(before, name, data, sha, validate) && name in names
    requires Agree(after, before, Pruning(names, retention))
    requires Expired(names, retention, name) ==> Backup(name) !in after
    ensures BackedUp(after, name, data, sha, validate) <==> |Newer(names, name)| < retention
  {
    if !Expired(names, retention, name) {
      assert !Pruning(names, retention)(Backup(name)) && !Pruning(names, retention)(Metadata(name));
    }
  }

  lemma PresentSame(before: Files, after: Files, matching: bytes -> bool)
    requires Agree(after, before, StageOnly())
    ensures Present(after, matching) == Present(before, matching)
  {
    forall n: bytes ensures Backup(n) in after <==> Backup(n) in before { assert !StageOnly()(Backup(n)); }
  }

  /** The maintenance tool's view of the disk; a crash stops it at any recorded state. */
  class Machine {
    const plan: nat -> bool
    const validate: bytes -> Option<bytes>
    const sha: bytes -> bytes
    var clock: nat
    /** How many operations have failed so far. */
    ghost var faults: nat
    var files: Files
    ghost var trace: seq<Files>

    constructor (plan: nat -> bool, validate: bytes -> Option<bytes>, sha: bytes -> bytes, files: Files)
      ensures this.plan == plan && this.validate == validate && this.sha == sha && this.files == files && trace == [files]
    {
      this.plan, this.validate, this.sha, this.files := plan, validate, sha, files;
      clock, faults, trace := 0, 0, [files];
    }

    /** Since a phase began, only its paths have changed, at every moment. */
    ghost predicate Within(phase: Phase)
      reads this`files, this`trace
    {
      && phase.recorded <= trace && Agree(files, phase.before, phase.touched)
      && forall i | |phase.recorded| <= i < |trace| :: Agree(trace[i], phase.before, phase.touched)
    }

    ghost predicate ValidCatalog(fs: Files, p: Path) {
      p in fs && fs[p].Catalog? && validate(fs[p].data).Some?
    }

    /** No operation ever fails. */
    ghost predicate Reliable() { forall k :: !plan(k) }

    /** Failures are counted up, and there are none where no operation fails. */
    twostate predicate Counted()
      reads this`faults
    {
      old(faults) <= faults && (Reliable() ==> faults == old(faults))
    }

    /** Does the next operation fail? */
    method Fails() returns (b: bool)
      modifies this`clock, this`faults
      ensures b == plan(old(clock)) && clock == old(clock) + 1
      ensures faults == old(faults) + if b then 1 else 0
    {
      b := plan(clock);
      clock := clock + 1;
      if b { faults := faults + 1; }
    }

    method Put(p: Path, c: Content, ghost phase: Phase)
      requires Within(phase) && phase.touched(p)
      modifies this`files, this`trace
      ensures Within(phase) && files == old(files)[p := c] && trace == old(trace) + [files]
    {
      files := files[p := c];
      trace := trace + [files];
    }

    method Remove(p: Path, ghost phase: Phase)
      requires Within(phase) && phase.touched(p)
      modifies this`files, this`trace
      ensures Within(phase) && files == old(files) - {p} && trace == old(trace) + [files]
    {
      files := files - {p};
      trace := trace + [files];
    }

    method Replace(from: Path, to: Path, ghost phase: Phase)
      requires from in files && from != to && Within(phase) && phase.touched(from) && phase.touched(to)
      modifies this`files, this`trace
      ensures Within(phase) && files == (old(files) - {from})[to := old(files)[from]] && trace == old(trace) + [files]
    {
      files := (files - {from})[to := files[from]];
      trace := trace + [files];
    }

    method SqliteBackup(source: Path, destination: Path, ghost phase: Phase) returns (ok: bool)
      requires source != destination && Within(phase) && phase.touched(destination)
      modifies this`clock, this`faults, this`files, this`trace
      ensures Within(phase)
      ensures ok ==> source in old(files) && old(files)[source].Catalog? && files == old(files)[destination := old(files)[source]]
      ensures Counted() && (ok <==> faults == old(faults) && source in old(files) && old(files)[source].Catalog?)
    {
      ghost var before := files;
      Remove(destination, phase);
      if source !in files || !files[source].Catalog? { return false; }
      var copy := files[source];
      var fails := Fails();
      if fails { return false; }
      Put(destination, Partial, phase);
      fails := Fails();
      if fails {
        Remove(destination, phase);
        return false;
      }
      Put(destination, copy, phase);
      assert files == before[destination := copy];
      fails := Fails();
      return !fails;
    }

    /** atomic_json for a backup's metadata. */
    method PublishMetadata(name: bytes, info: Content, ghost phase: Phase) returns (ok: bool)
      requires Within(phase) && phase.touched(MetadataTemporary) && phase.touched(Metadata(name))
      modifies this`clock, this`faults, this`files, this`trace
      ensures Within(phase)
      ensures Backup(name) in old(files) ==> Backup(name) in files && files[Backup(name)] == old(files)[Backup(name)]
      ensures ok ==> Metadata(name) in files && files[Metadata(name)] == info
      ensures Counted() && (ok <==> faults == old(faults))
    {
      ok := false;
      Put(MetadataTemporary, Partial, phase);
      var fails := Fails();
      if !fails {
        Put(MetadataTemporary, info, phase);
        fails := Fails();
        if !fails {
          Replace(MetadataTemporary, Metadata(name), phase);
          fails := Fails();
          ok := !fails;
        }
      }
      Remove(MetadataTemporary, phase);
    }

    /** publish_backup */
    method PublishBackup(source: Path, name: bytes, ghost phase: Phase) returns (ok: bool)
      requires Within(phase) && phase.touched == Publishing(name) && !phase.touched(source)
      modifies this`clock, this`faults, this`files, this`trace
      ensures Within(phase)
      ensures ok ==> source in old(files) && old(files)[source].Catalog?
      ensures ok ==> BackedUp(files, name, old(files)[source].data, sha, validate)
      ensures Counted() && (ok <==> faults == old(faults) && ValidCatalog(old(files), source))
    {
      ok := SqliteBackup(source, Temporary, phase);
      if ok { ok := PublishCopy(name, phase); }
      Remove(Temporary, phase);
    }

    /** Validate the temporary copy, put it in place and describe it. */
    method PublishCopy(name: bytes, ghost phase: Phase) returns (ok: bool)
      requires Within(phase) && phase.touched == Publishing(name) && Temporary in files && files[Temporary].Catalog?
      modifies this`clock, this`faults, this`files, this`trace
      ensures Within(phase)
      ensures ok ==> BackedUp(files, name, old(files)[Temporary].data, sha, validate)
      ensures Counted() && (ok <==> faults == old(faults) && validate(old(files)[Temporary].data).Some?)
    {
      ok := false;
      var data := files[Temporary].data;
      var details := validate(data);
      var fails := Fails();
      if details.Some? && !fails {
        Replace(Temporary, Backup(name), phase);
        fails := Fails();
        if !fails { ok := PublishMetadata(name, Info(sha(data), |data|, details.value), phase); }
      }
    }

    method RemovePair(name: bytes, ghost phase: Phase) returns (ok: bool)
      requires Within(phase) && phase.touched(Metadata(name)) && phase.touched(Backup(name))
      modifies this`clock, this`faults, this`files, this`trace
      ensures Within(phase) && files.Keys <= old(files.Keys)
      ensures ok ==> Backup(name) !in files && Metadata(name) !in files
      ensures Counted() && (ok <==> faults == old(faults))
    {
      ok := false;
      var fails := Fails();
      if !fails {
        Remove(Metadata(name), phase);
        fails := Fails();
        if !fails {
          Remove(Backup(name), phase);
          ok := true;
        }
      }
    }

    /** The loop of prune_refresh_backups: the metadata goes before its backup. */
    method RemovePairs(names: seq<bytes>, ghost phase: Phase) returns (ok: bool)
      requires Within(phase) && forall n | n in names :: phase.touched(Metadata(n)) && phase.touched(Backup(n))
      modifies this`clock, this`faults, this`files, this`trace
      ensures Within(phase)
      ensures ok ==> forall n | n in names :: Backup(n) !in files && Metadata(n) !in files
      ensures Counted() && (ok <==> faults == old(faults))
    {
      ok := true;
      var i := 0;
      while i < |names| && ok
        invariant i <= |names| && Within(phase) && Counted() && (ok <==> faults == old(faults))
        invariant ok ==> forall j | 0 <= j < i :: Backup(names[j]) !in files && Metadata(names[j]) !in files
        decreases |names| - i
      {
        ok := RemovePair(names[i], phase);
        i := i + 1;
      }
    }

    /** prune_refresh_backups */
    method Prune(matching: bytes -> bool, retention: Retention, ghost phase: Phase) returns (ok: bool)
      requires Within(phase) && phase.touched == Pruning(Present(files, matching), retention)
      modifies this`clock, this`faults, this`files, this`trace
      ensures Within(phase)
      ensures ok ==> forall n | Expired(Present(old(files), matching), retention, n) :: Backup(n) !in files && Metadata(n) !in files
      ensures Counted() && (ok <==> faults == old(faults))
    {
      var names := Present(files, matching);
      var backups := SortedKeys(names);
      var expired := if |backups| > retention then backups[..|backups| - retention] else [];
      ExpiredAre(names, retention, expired);
      ok := RemovePairs(expired, phase);
      var fails := Fails();
      ok := ok && !fails;
    }

    // Refresh, up to the swap and from it on.

    /** At every moment since, the live path has been as it was. */
    ghost predicate LiveKept(before: Files, recorded: seq<Files>)
      reads this`files, this`trace
    {
      recorded <= trace && SameLive(files, before) && forall i | |recorded| <= i < |trace| :: SameLive(trace[i], before)
    }

    lemma WithinKeepsLive(before: Files, recorded: seq<Files>, phase: Phase)
      requires Within(phase) && !phase.touched(Live) && SameLive(phase.before, before) && recorded <= phase.recorded
      requires forall i | |recorded| <= i < |phase.recorded| :: SameLive(phase.recorded[i], before)
      ensures LiveKept(before, recorded)
    {
      forall i | |recorded| <= i < |trace| ensures SameLive(trace[i], before) {
        if i < |phase.recorded| { assert trace[i] == phase.recorded[i]; } else { assert Agree(trace[i], phase.before, phase.touched); }
      }
    }

    /** The live catalog is valid, and so is the staged one, with the digest the refresh reported. */
    ghost predicate Checked(before: Files, tool: Tool) {
      ValidCatalog(before, Live) && tool.digest.Some? && tool.staged.Some? && validate(tool.staged.value) == tool.digest
    }

    /** Everything the refresh command must have done for the staged catalog to go live. */
    ghost predicate Accepted(before: Files, tool: Tool) { Checked(before, tool) && tool.bundleOk && tool.countsMatch }

    /** Validate the live catalog, copy it, let the refresh command work on the copy, and check the result. */
    method PrepareStage(tool: Tool, ghost phase: Phase) returns (ok: bool)
      requires Within(phase) && phase.touched == StageOnly()
      modifies this`clock, this`faults, this`files, this`trace
      ensures Within(phase)
      ensures ok ==> Accepted(old(files), tool) && Stage in files && files[Stage] == Catalog(tool.staged.value)
      ensures Counted() && (ok <==> faults == old(faults) && Accepted(old(files), tool))
    {
      if Live !in files || !files[Live].Catalog? || validate(files[Live].data).None? { return false; }
      var copied := SqliteBackup(Live, Stage, phase);
      if !copied { return false; }
      Put(Stage, Partial, phase);
      if tool.staged.None? { return false; }
      Put(Stage, Catalog(tool.staged.value), phase);
      return tool.bundleOk && tool.digest.Some? && validate(tool.staged.value) == tool.digest && tool.countsMatch;
    }

    /** Prune behind a published backup: it stays exactly if it is late enough in the order of names. */
    method PruneBehind(name: bytes, ghost data: bytes, matching: bytes -> bool, retention: Retention,
                       ghost before: Files, ghost recorded: seq<Files>) returns (ok: bool)
      requires BackedUp(files, name, data, sha, validate) && matching(name) && LiveKept(before, recorded)
      modifies this`clock, this`faults, this`files, this`trace
      ensures LiveKept(before, recorded)
      ensures Stage in old(files) ==> Stage in files && files[Stage] == old(files)[Stage]
      ensures Counted() && (ok <==> faults == old(faults))
      ensures ok ==> (BackedUp(files, name, data, sha, validate) <==> |Newer(Present(old(files), matching), name)| < retention)
      ensures ok ==> Pruned(files, old(files), Present(old(files), matching), retention, name)
    {
      ghost var published, names := files, Present(files, matching);
      ghost var pruning := Phase(files, trace, Pruning(names, retention));
      ok := Prune(matching, retention, pruning);
      WithinKeepsLive(before, recorded, pruning);
      if ok {
        BackupSurvives(published, files, names, retention, name, data, sha, validate);
        PruningPrunes(published, files, names, retention, name);
      }
    }

    /** Publish the backup of the live catalog, then prune; the stage stays ready. */
    method BackUpAndPrune(name: bytes, matching: bytes -> bool, retention: Retention) returns (ok: bool)
      requires matching(name)
      modifies this`clock, this`faults, this`files, this`trace
      ensures LiveKept(old(files), old(trace))
      ensures Stage in old(files) ==> Stage in files && files[Stage] == old(files)[Stage]
      ensures ok ==> ValidCatalog(old(files), Live)
      ensures Counted() && (ok <==> faults == old(faults) && ValidCatalog(old(files), Live))
      ensures ok ==> (BackedUp(files, name, old(files)[Live].data, sha, validate) <==>
                      |Newer(Present(old(files), matching), name)| < retention)
      ensures ok ==> Pruned(files, old(files), WithNew(old(files), matching, name), retention, name)
    {
      ghost var before, recorded := files, trace;
      ghost var publishing := Phase(files, trace, Publishing(name));
      ok := PublishBackup(Live, name, publishing);
      WithinKeepsLive(before, recorded, publishing);
      if ok {
        ghost var published := files;
        OnlyPublished(before, published, matching, name);
        ok := PruneBehind(name, before[Live].data, matching, retention, before, recorded);
        if ok { PrunedFromEarlier(files, published, before, WithNew(before, matching, name), retention, name); }
      }
    }

    /** The status file, written whole and then put in place. */
    method WriteStatus(ghost phase: Phase) returns (ok: bool)
      requires Within(phase) && phase.touched == Finishing()
      modifies this`clock, this`faults, this`files, this`trace
      ensures Within(phase) && Counted() && (ok <==> faults == old(faults))
    {
      ok := false;
      Put(StatusTemporary, Partial, phase);
      var fails := Fails();
      if !fails {
        Put(StatusTemporary, Report, phase);
        Replace(StatusTemporary, Status, phase);
        ok := true;
      }
      Remove(StatusTemporary, phase);
    }

    /** Everything before the swap. */
    method Prepare(name: bytes, matching: bytes -> bool, retention: Retention, tool: Tool) returns (ok: bool)
      requires matching(name)
      modifies this`clock, this`faults, this`files, this`trace
      ensures LiveKept(old(files), old(trace))
      ensures ok ==> Accepted(old(files), tool) && Stage in files && files[Stage] == Catalog(tool.staged.value)
      ensures Counted() && (ok <==> faults == old(faults) && Accepted(old(files), tool))
      ensures ok ==> (BackedUp(files, name, old(files)[Live].data, sha, validate) <==>
                      |Newer(Present(old(files), matching), name)| < retention)
      ensures ok ==> Pruned(files, old(files), WithNew(old(files), matching, name), retention, name)
    {
      ghost var before, recorded, staging := files, trace, Phase(files, trace, StageOnly());
      ok := PrepareStage(tool, staging);
      WithinKeepsLive(before, recorded, staging);
      if ok {
        ghost var staged, sofar := files, trace;
        PresentSame(before, staged, matching);
        BackupsAgree(staged, before, StageOnly(), name);
        ok := BackUpAndPrune(name, matching, retention);
        KeptLonger(before, recorded, staged, sofar);
        if ok { PrunedFromEarlier(files, staged, before, WithNew(before, matching, name), retention, name); }
      }
    }

    lemma KeptLonger(before: Files, recorded: seq<Files>, middle: Files, sofar: seq<Files>)
      requires LiveKept(middle, sofar) && SameLive(middle, before) && recorded <= sofar
      requires forall i | |recorded| <= i < |sofar| :: SameLive(sofar[i], before)
      ensures LiveKept(before, recorded)
    {
      forall i | |recorded| <= i < |trace| ensures SameLive(trace[i], before) {
        if i < |sofar| { assert trace[i] == sofar[i]; }
      }
    }

    /**
     * After the swap: the new catalog is live, the old one is backed up exactly if its name sorts late enough, and of the
     * other backups the expired ones are gone and the rest as they were.
     */
    ghost predicate Replaced(s: Files, before: Files, tool: Tool, name: bytes, matching: bytes -> bool, retention: Retention)
      requires Checked(before, tool)
    {
      && Live in s && s[Live] == Catalog(tool.staged.value)
      && (BackedUp(s, name, before[Live].data, sha, validate) <==> |Newer(Present(before, matching), name)| < retention)
      && Pruned(s, before, WithNew(before, matching, name), retention, name)
    }

    lemma StaysReplaced(phase: Phase, before: Files, tool: Tool, name: bytes, matching: bytes -> bool, retention: Retention)
      requires Within(phase) && phase.touched == Finishing() && Checked(before, tool)
      requires Replaced(phase.before, before, tool, name, matching, retention)
      ensures Replaced(files, before, tool, name, matching, retention)
      ensures forall i | |phase.recorded| <= i < |trace| :: Replaced(trace[i], before, tool, name, matching, retention)
    {
      ReplacedAgree(phase.before, files, before, tool, name, matching, retention);
      forall i | |phase.recorded| <= i < |trace| ensures Replaced(trace[i], before, tool, name, matching, retention) {
        ReplacedAgree(phase.before, trace[i], before, tool, name, matching, retention);
      }
    }

    lemma ReplacedAgree(s: Files, t: Files, before: Files, tool: Tool, name: bytes, matching: bytes -> bool, retention: Retention)
      requires Agree(t, s, Finishing()) && Checked(before, tool) && Replaced(s, before, tool, name, matching, retention)
      ensures Replaced(t, before, tool, name, matching, retention)
    {
      assert !Finishing()(Live);
      forall n: bytes ensures SameBackup(t, s, n) { assert !Finishing()(Backup(n)) && !Finishing()(Metadata(n)); }
      assert SameBackup(t, s, name);
      PrunedStill(t, s, before, WithNew(before, matching, name), retention, name);
    }

    lemma SwapReplaces(ready: Files, before: Files, tool: Tool, name: bytes, matching: bytes -> bool, retention: Retention)
      requires Checked(before, tool) && Stage in ready && ready[Stage] == Catalog(tool.staged.value)
      requires BackedUp(ready, name, before[Live].data, sha, validate) <==> |Newer(Present(before, matching), name)| < retention
      requires Pruned(ready, before, WithNew(before, matching, name), retention, name)
      ensures Replaced((ready - {Stage})[Live := ready[Stage]], before, tool, name, matching, retention)
    {
      var swapped := (ready - {Stage})[Live := ready[Stage]];
      forall n: bytes ensures SameBackup(swapped, ready, n) {}
      assert SameBackup(swapped, ready, name);
      PrunedStill(swapped, ready, before, WithNew(before, matching, name), retention, name);
    }

    /** Behind the swap: the status, written again if that failed, and the clean-up. */
    method FinishUp(ghost before: Files, tool: Tool, name: bytes, matching: bytes -> bool, retention: Retention) returns (ok: bool)
      requires Checked(before, tool) && Replaced(files, before, tool, name, matching, retention)
      modifies this`clock, this`faults, this`files, this`trace
      ensures old(trace) <= trace && Replaced(files, before, tool, name, matching, retention)
      ensures forall i | |old(trace)| <= i < |trace| :: Replaced(trace[i], before, tool, name, matching, retention)
      ensures Counted() && (ok <==> faults == old(faults))
    {
      ghost var finishing := Phase(files, trace, Finishing());
      ok := false;
      var fails := Fails();
      if !fails { ok := WriteStatus(finishing); }
      if !ok { var written := WriteStatus(finishing); }
      Remove(Stage, finishing);
      StaysReplaced(finishing, before, tool, name, matching, retention);
    }

    /** From the swap on: the new catalog goes live in one step. */
    method SwapIn(ghost before: Files, tool: Tool, name: bytes, matching: bytes -> bool, retention: Retention) returns (ok: bool)
      requires Checked(before, tool) && Stage in files && files[Stage] == Catalog(tool.staged.value)
      requires BackedUp(files, name, before[Live].data, sha, validate) <==> |Newer(Present(before, matching), name)| < retention
      requires Pruned(files, before, WithNew(before, matching, name), retention, name)
      modifies this`clock, this`faults, this`files, this`trace
      ensures old(trace) <= trace && |old(trace)| < |trace| && Replaced(files, before, tool, name, matching, retention)
      ensures forall i | |old(trace)| <= i < |trace| :: Replaced(trace[i], before, tool, name, matching, retention)
      ensures Counted() && (ok <==> faults == old(faults))
    {
      SwapReplaces(files, before, tool, name, matching, retention);
      Replace(Stage, Live, Phase(files, trace, (p: Path) => p == Stage || p == Live));
      ok := FinishUp(before, tool, name, matching, retention);
    }

    /**
     * refresh. At every recorded state, so at every moment a crash could stop it, the live path holds the old catalog
     * or, from the swap on, the checked new one; and then the old one is backed up with matching metadata exactly when
     * fewer matching backups than retention keeps sort behind the new backup's name, and of the others the expired ones
     * are gone and the rest as they were (see KeepsLast). Without failures it succeeds when both catalogs are accepted.
     */
    method Refresh(name: bytes, matching: bytes -> bool, retention: Retention, tool: Tool) returns (ok: bool, ghost swap: nat)
      requires matching(name)
      modifies this`clock, this`faults, this`files, this`trace
      ensures old(trace) <= trace && |old(trace)| <= swap <= |trace|
      ensures forall i | |old(trace)| <= i < swap :: SameLive(trace[i], old(files))
      ensures swap < |trace| ==> Accepted(old(files), tool)
      ensures forall i | swap <= i < |trace| :: Replaced(trace[i], old(files), tool, name, matching, retention)
      ensures if swap < |trace| then Replaced(files, old(files), tool, name, matching, retention) else SameLive(files, old(files))
      ensures ok ==> swap < |trace|
      ensures Counted() && (ok <==> faults == old(faults) && Accepted(old(files), tool))
    {
      ghost var before, recorded := files, trace;
      ok := Prepare(name, matching, retention, tool);
      var fails := Fails();
      if ok && !fails {
        swap := |trace|;
        ghost var prepared := trace;
        ok := SwapIn(before, tool, name, matching, retention);
        assert forall i | |recorded| <= i < swap :: trace[i] == prepared[i];
      } else {
        ok := false;
        ghost var middle, sofar, finishing := files, trace, Phase(files, trace, Finishing());
        var written := WriteStatus(finishing);
        Remove(Stage, finishing);
        WithinKeepsLive(before, recorded, finishing);
        swap := |trace|;
      }
    }

    /** The matching backups behind the swap are the last ones by name, as many as retention keeps. */
    lemma KeepsLast(s: Files, before: Files, tool: Tool, name: bytes, matching: bytes -> bool, retention: Retention)
      requires matching(name) && Checked(before, tool) && Replaced(s, before, tool, name, matching, retention)
      ensures forall n :: n in Present(s, matching) <==> n in LastOf(WithNew(before, matching, name), retention)
      ensures forall n | n in Present(s, matching) && n != name :: SameBackup(s, before, n)
    {
      NewerWithNew(before, matching, name);
      LastKept(s, before, matching, retention, name);
      forall n | n in Present(s, matching) && n != name ensures SameBackup(s, before, n) {
        assert PrunedAt(s, before, WithNew(before, matching, name), retention, name, n);
      }
    }

    // Restore.

    /** Check a backup against its metadata, copy it beside the live catalog, and check the copy. */
    method StageBackup(source: bytes, ghost phase: Phase) returns (ok: bool)
      requires Within(phase) && phase.touched == StageOnly()
      modifies this`clock, this`faults, this`files, this`trace
      ensures Within(phase)
      ensures ok ==> Restorable(old(files), source) && Stage in files && files[Stage] == old(files)[Backup(source)]
      ensures Counted() && (ok <==> faults == old(faults) && Restorable(old(files), source))
    {
      if Metadata(source) !in files || !files[Metadata(source)].Info? || Backup(source) !in files || !files[Backup(source)].Catalog? {
        return false;
      }
      var info, data := files[Metadata(source)], files[Backup(source)].data;
      if info.size != |data| || sha(data) != info.digest || validate(data) != Some(info.snapshot) { return false; }
      ok := SqliteBackup(Backup(source), Stage, phase);
      ok := ok && validate(files[Stage].data) == Some(info.snapshot);
    }

    ghost predicate Restorable(fs: Files, source: bytes) {
      Backup(source) in fs && fs[Backup(source)].Catalog? && BackedUp(fs, source, fs[Backup(source)].data, sha, validate)
    }

    /** After a restore: the backup is live, and a catalog that was valid before is backed up in turn. */
    ghost predicate Restored(s: Files, before: Files, source: bytes, recovery: bytes)
      requires Restorable(before, source)
    {
      && Live in s && s[Live] == before[Backup(source)]
      && (ValidCatalog(before, Live) ==> BackedUp(s, recovery, before[Live].data, sha, validate))
    }

    /** A live catalog that must be saved first has a name to go to. */
    ghost predicate RecoveryFree(fs: Files, recovery: bytes) {
      ValidCatalog(fs, Live) ==> Backup(recovery) !in fs && Metadata(recovery) !in fs
    }

    /** A valid live catalog is backed up first; an invalid one is replaced without. */
    method SaveLive(recovery: bytes) returns (ok: bool)
      modifies this`clock, this`faults, this`files, this`trace
      ensures LiveKept(old(files), old(trace))
      ensures Stage in old(files) ==> Stage in files && files[Stage] == old(files)[Stage]
      ensures ok ==> ValidCatalog(old(files), Live) ==> BackedUp(files, recovery, old(files)[Live].data, sha, validate)
      ensures Counted() && (ok <==> faults == old(faults) && RecoveryFree(old(files), recovery))
    {
      if Live !in files || !files[Live].Catalog? || validate(files[Live].data).None? { return true; }
      if Backup(recovery) in files || Metadata(recovery) in files { return false; }
      ghost var before, recorded, publishing := files, trace, Phase(files, trace, Publishing(recovery));
      ok := PublishBackup(Live, recovery, publishing);
      WithinKeepsLive(before, recorded, publishing);
    }

    method PrepareRestore(source: bytes, recovery: bytes) returns (ok: bool)
      modifies this`clock, this`faults, this`files, this`trace
      ensures LiveKept(old(files), old(trace))
      ensures ok ==> Restorable(old(files), source) && Stage in files && files[Stage] == old(files)[Backup(source)]
      ensures ok ==> ValidCatalog(old(files), Live) ==> BackedUp(files, recovery, old(files)[Live].data, sha, validate)
      ensures Counted()
      ensures ok <==> faults == old(faults) && Restorable(old(files), source) && RecoveryFree(old(files), recovery)
    {
      ghost var before, recorded, staging := files, trace, Phase(files, trace, StageOnly());
      ok := StageBackup(source, staging);
      WithinKeepsLive(before, recorded, staging);
      if ok {
        ghost var staged, sofar := files, trace;
        ok := SaveLive(recovery);
        KeptLonger(before, recorded, staged, sofar);
      }
    }

    method RestoreSwap(ghost before: Files, source: bytes, recovery: bytes) returns (ok: bool)
      requires Restorable(before, source) && Stage in files && files[Stage] == before[Backup(source)]
      requires ValidCatalog(before, Live) ==> BackedUp(files, recovery, before[Live].data, sha, validate)
      modifies this`clock, this`faults, this`files, this`trace
      ensures old(trace) <= trace && |old(trace)| < |trace| && Restored(files, before, source, recovery)
      ensures forall i | |old(trace)| <= i < |trace| :: Restored(trace[i], before, source, recovery)
      ensures Counted() && (ok <==> faults == old(faults))
    {
      SwapRestores(files, before, source, recovery);
      Replace(Stage, Live, Phase(files, trace, (p: Path) => p == Stage || p == Live));
      var fails := Fails();
      ok := !fails;
      ghost var swapped := files;
      Remove(Stage, Phase(files, trace, StageOnly()));
      StaysRestored(swapped, files, before, source, recovery);
    }

    lemma SwapRestores(ready: Files, before: Files, source: bytes, recovery: bytes)
      requires Restorable(before, source) && Stage in ready && ready[Stage] == before[Backup(source)]
      requires ValidCatalog(before, Live) ==> BackedUp(ready, recovery, before[Live].data, sha, validate)
      ensures Restored((ready - {Stage})[Live := ready[Stage]], before, source, recovery)
    {}

    /** restore_command: at every moment the live path holds what it held or, from the swap on, the checked backup. */
    method Restore(source: bytes, recovery: bytes) returns (ok: bool, ghost swap: nat)
      modifies this`clock, this`faults, this`files, this`trace
      ensures old(trace) <= trace && |old(trace)| <= swap <= |trace|
      ensures forall i | |old(trace)| <= i < swap :: SameLive(trace[i], old(files))
      ensures swap < |trace| ==> Restorable(old(files), source)
      ensures forall i | swap <= i < |trace| :: Restored(trace[i], old(files), source, recovery)
      ensures if swap < |trace| then Restored(files, old(files), source, recovery) else SameLive(files, old(files))
      ensures ok ==> swap < |trace|
      ensures Counted()
      ensures ok <==> faults == old(faults) && Restorable(old(files), source) && RecoveryFree(old(files), recovery)
    {
      ghost var before, recorded := files, trace;
      ok := PrepareRestore(source, recovery);
      var fails := Fails();
      if ok && !fails {
        swap := |trace|;
        ghost var prepared := trace;
        ok := RestoreSwap(before, source, recovery);
        assert forall i | |recorded| <= i < swap :: trace[i] == prepared[i];
      } else {
        ok := false;
        ghost var cleaning := Phase(files, trace, StageOnly());
        Remove(Stage, cleaning);
        WithinKeepsLive(before, recorded, cleaning);
        swap := |trace|;
      }
    }

    lemma StaysRestored(s: Files, t: Files, before: Files, source: bytes, recovery: bytes)
      requires Agree(t, s, StageOnly()) && Restorable(before, source) && Restored(s, before, source, recovery)
      ensures Restored(t, before, source, recovery)
    {
      assert !StageOnly()(Live) && !StageOnly()(Backup(recovery)) && !StageOnly()(Metadata(recovery));
    }
  }

  // A refresh that keeps no backup of what it replaced.

  const OLD: bytes := [1]
  const NEW: bytes := [2]
  const EVEN_OLDER: bytes := [3]

  const DATABASE := Ascii("registry.sqlite")
  const EARLIER := Ascii("20250101")
  const LATER := Ascii("20260101")
  const TIME := Ascii("000000")
  const RANDOM := Ascii("00000000")
  const EARLIER_NAME := DATABASE + Token(EARLIER, TIME, RANDOM) + SUFFIX
  const LATER_NAME := DATABASE + Token(LATER, TIME, RANDOM) + SUFFIX

  lemma DatesAreDigits()
    ensures Digits(EARLIER) && Digits(LATER)
  {
    AsciiDigits("20250101");
    AsciiDigits("20260101");
  }

  lemma DatesAscend()
    ensures Less(EARLIER, LATER)
  {
    assert EARLIER == Ascii("202") + Ascii("50101");
    assert LATER == Ascii("202") + Ascii("60101");
    LessBehind(Ascii("202"), Ascii("50101"), Ascii("60101"));
  }

  lemma NamesOk()
    ensures RefreshName(DATABASE, EARLIER_NAME) && RefreshName(DATABASE, LATER_NAME) && Less(EARLIER_NAME, LATER_NAME)
  {
    DatesAreDigits();
    DatesAscend();
    TokenOk(EARLIER, TIME, RANDOM);
    TokenOk(LATER, TIME, RANDOM);
    TokenNames(DATABASE, Token(EARLIER, TIME, RANDOM));
    TokenNames(DATABASE, Token(LATER, TIME, RANDOM));
    NamesByDate(DATABASE, EARLIER, LATER, TIME, RANDOM);
  }

  /** A digest of 64 characters for each of the three catalogs. */
  function DigestOf(data: bytes): bytes { seq(64, _ => if data == [] then 0x30 else 0x30 + data[0] % 10) }

  /** The old catalog live, and one backup, of yet another catalog, with its metadata. */
  function OneBackup(later: bytes): Files {
    map[Live := Catalog(OLD), Backup(later) := Catalog(EVEN_OLDER),
        Metadata(later) := Info(DigestOf(EVEN_OLDER), 1, DigestOf(EVEN_OLDER))]
  }

  /** Of two names retention keeps the later one. */
  lemma OnlyLaterKept(s: Files, matching: bytes -> bool, earlier: bytes, later: bytes)
    requires matching(earlier) && matching(later) && Less(earlier, later)
    requires Pruned(s, OneBackup(later), WithNew(OneBackup(later), matching, earlier), 1, earlier)
    ensures Backup(later) in s && s[Backup(later)] == Catalog(EVEN_OLDER)
    ensures forall n :: Backup(n) in s <==> n == later
  {
    var before := OneBackup(later);
    var names := WithNew(before, matching, earlier);
    assert names == {later, earlier} by { assert Present(before, matching) == {later}; }
    LessAsymmetric(earlier, later);
    LessIrreflexive(earlier);
    LessIrreflexive(later);
    assert Newer(names, earlier) == {later} && Newer(names, later) == {};
    forall n: bytes ensures Backup(n) in s <==> n == later {
      assert PrunedAt(s, before, names, 1, earlier, n);
    }
    assert PrunedAt(s, before, names, 1, earlier, later);
  }

  /** Retention keeps one backup, and the clock went back since the last one was named: no backup of the old catalog is left. */
  method PrunedBackup() returns (m: Machine)
    ensures Live in m.files && m.files[Live] == Catalog(NEW)
    ensures forall n :: Backup(n) in m.files ==> m.files[Backup(n)] != Catalog(OLD)
    ensures forall n :: !BackedUp(m.files, n, OLD, m.sha, m.validate)
  {
    var matching := (n: bytes) => RefreshName(DATABASE, n);
    m := new Machine(_ => false, (d: bytes) => Some(DigestOf(d)), DigestOf, OneBackup(LATER_NAME));
    var tool := Tool(Some(NEW), true, Some(DigestOf(NEW)), true);
    assert m.Accepted(m.files, tool);
    NamesOk();
    var ok, _ := m.Refresh(EARLIER_NAME, matching, 1, tool);
    OnlyLaterKept(m.files, matching, EARLIER_NAME, LATER_NAME);
  }
}
