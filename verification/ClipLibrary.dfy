/** The library itself: the index and the files, changed in place. */
module ClipLibrary {
  import opened Common
  import opened Sorting
  import opened ClipIndex
  import opened LibraryScan
  import opened LibraryActions
  import opened LibraryQuota
  import opened LibraryFrames
  import opened LibraryCleanup
  import opened LibraryWalk

  function Gone(before: Disk, disk: Disk): set<Path> {
    before.Keys - disk.Keys
  }

  /** Nothing below the listed names is gone. */
  ghost predicate Untouched(before: Disk, disk: Disk, names: seq<string>) {
    forall p | p in before && p != [] && p[0] in names :: p in disk
  }

  /** No child with one of these names is gone. */
  ghost predicate ChildrenUntouched(before: Disk, disk: Disk, dir: Path, names: seq<string>) {
    forall name | name in names && dir + [name] in before :: dir + [name] in disk
  }

  lemma AllUntouched(disk: Disk, names: seq<string>)
    ensures Untouched(disk, disk, names)
  {
  }

  lemma UntouchedNext(before: Disk, disk: Disk, now: Disk, env: Env, names: seq<string>, i: nat)
    requires i < |names| && Untouched(before, disk, names[i..]) && ExactListings(before, env)
    requires [] in before && before[[]].Directory? && names == env.listing([])
    requires forall p | p in disk && p !in now :: p != [] && p[0] == names[i]
    ensures Untouched(before, now, names[i + 1..])
  {
    assert forall name | name in names[i + 1..] :: name in names[i..] && name != names[i];
  }

  lemma ListedIsThere(before: Disk, disk: Disk, env: Env, names: seq<string>, i: nat)
    requires i < |names| && Untouched(before, disk, names[i..]) && ExactListings(before, env)
    requires [] in before && before[[]].Directory? && names == env.listing([])
    ensures [names[i]] in disk
    ensures [names[i]] in before && before[[names[i]]].Directory? ==>
              ChildrenUntouched(before, disk, [names[i]], env.listing([names[i]]))
  {
    assert [] + [names[i]] == [names[i]];
    assert names[i..][0] == names[i];
  }

  lemma ChildrenUntouchedNext(before: Disk, disk: Disk, now: Disk, env: Env, dir: Path, names: seq<string>, j: nat)
    requires j < |names| && ChildrenUntouched(before, disk, dir, names[j..]) && ExactListings(before, env)
    requires dir in before && before[dir].Directory? && names == env.listing(dir)
    requires forall p | p in disk && p !in now :: p == dir + [names[j]]
    ensures dir + [names[j]] in disk
    ensures ChildrenUntouched(before, now, dir, names[j + 1..])
  {
    assert names[j..][0] == names[j];
    forall name | name in names[j + 1..] && dir + [name] in before ensures dir + [name] in now {
      assert name in names[j..] && name != names[j];
      assert (dir + [name])[|dir|] == name && (dir + [names[j]])[|dir|] == names[j];
    }
  }

  lemma NothingSwept(disk: Disk)
    ensures Sweeping(disk, disk)
  {
  }

  lemma EmptyDisk(disk: Disk, env: Env)
    requires DiskShape(disk, env) && [] !in disk
    ensures disk == Swept(disk)
  {
  }

  /** A path is as it was, or was a leftover and is gone. */
  lemma StillThere(before: Disk, disk: Disk, p: Path)
    requires Sweeping(before, disk)
    ensures p in disk ==> p in before && disk[p] == before[p]
    ensures p in before && p !in disk ==> IsLeftover(before, p)
  {
  }

  lemma SweepOne(before: Disk, disk: Disk, p: Path)
    requires Sweeping(before, disk) && p in before && IsLeftover(before, p)
    ensures Sweeping(before, disk - {p})
  {
  }

  lemma AllSwept(before: Disk, disk: Disk)
    requires Sweeping(before, disk) && Leftovers(before) <= Gone(before, disk)
    ensures disk == Swept(before)
  {
  }

  /** What the quota loop has still to do leads to the outcome wanted. */
  ghost predicate StillToDelete(wanted: (State, Result<Deletions, LibraryError>), s: State, candidates: Rows, i: nat,
                                total: nat, quota: nat, env: Env, count: nat, bytes: nat)
    requires i <= |candidates|
  {
    var (t, d) := Evict(s, candidates[i..], total, quota, env);
    wanted == (t, AfterSome(count, bytes, d))
  }

  lemma AllToDelete(
      wanted: (State, Result<Deletions, LibraryError>), s: State, candidates: Rows, total: nat, quota: nat,
      env: Env)
    requires wanted == Evict(s, candidates, total, quota, env)
    ensures StillToDelete(wanted, s, candidates, 0, total, quota, env, 0, 0)
  {
    hide Evict;
    assert candidates[0..] == candidates;
  }

  lemma NoneToDelete(wanted: (State, Result<Deletions, LibraryError>), s: State, candidates: Rows, i: nat,
                     total: nat, quota: nat, env: Env, count: nat, bytes: nat)
    requires i <= |candidates| && StillToDelete(wanted, s, candidates, i, total, quota, env, count, bytes)
    requires i == |candidates| || total <= quota
    ensures wanted == (s, Ok(Deletions(count, bytes)))
  {
  }

  lemma NextToDelete(wanted: (State, Result<Deletions, LibraryError>), s: State, candidates: Rows, i: nat,
                     total: nat, quota: nat, env: Env, count: nat, bytes: nat)
    requires i < |candidates| && total > quota
    requires StillToDelete(wanted, s, candidates, i, total, quota, env, count, bytes)
    ensures var found, p := RowAt(s.rows, candidates[i].path), candidates[i].path;
            if found == |s.rows| then StillToDelete(wanted, s, candidates, i + 1, total, quota, env, count, bytes)
            else
              var (t, r) := Deleted(s, p, env);
              if r.Err? then wanted == (t, Err(r.error))
              else
                var size := s.rows[found].sizeBytes;
                StillToDelete(wanted, t, candidates, i + 1, Max(total - size, 0), quota, env, count + 1, bytes + size)
  {
    hide Deleted;
    assert candidates[i..][0] == candidates[i];
    assert candidates[i..][1..] == candidates[i + 1..];
  }

  lemma StillFits(s: State, p: Path, env: Env)
    requires Deleted(s, p, env).1.Ok?
    ensures |Deleted(s, p, env).0.disk| <= |s.disk|
  {
    DeleteShrinksDisk(s, p, env);
    SubsetSize(Deleted(s, p, env).0.disk.Keys, s.disk.Keys);
  }

  lemma {:induction false} SubsetSize<T>(a: set<T>, b: set<T>)
    requires a <= b
    ensures |a| <= |b|
  {
    assert |b| == |a| + |b - a| by { assert b == a + (b - a); }
  }

  lemma WalkStarts(before: Rows, disk: Disk, rows: Rows, seen: set<Path>)
    requires Distinct(before) && |rows| == |before|
    requires forall i | 0 <= i < |rows| :: rows[i] == Reconciled(before[i], disk)
    requires forall p :: p in seen <==> p in Paths(before) && Present(disk, p)
    ensures Walking(before, disk, rows, seen)
  {
    forall i | 0 <= i < |rows| ensures rows[i].path == before[i].path { ReconciledKeeps(before[i], disk); }
    hide Reconciled, Present;
    SamePaths(before, rows);
  }

  lemma SamePaths(a: Rows, b: Rows)
    requires |a| == |b| && forall i | 0 <= i < |a| :: a[i].path == b[i].path
    ensures Paths(a) == Paths(b)
  {
    forall p | p in Paths(a) ensures p in Paths(b) {
      var i :| 0 <= i < |a| && a[i].path == p;
      assert b[i] in b;
    }
    forall p | p in Paths(b) ensures p in Paths(a) {
      var i :| 0 <= i < |b| && b[i].path == p;
      assert a[i] in a;
    }
  }

  lemma NoClips(disk: Disk, env: Env)
    requires DiskShape(disk, env) && [] !in disk
    ensures disk == map[] && Clips(disk) == {}
  {
  }

  lemma ClipsAreDiscoverable(disk: Disk)
    ensures forall p | Discoverable(disk, p) :: p in Clips(disk)
  {
  }

  lemma AllMissingAlready(before: Rows, disk: Disk, rows: Rows)
    requires disk == map[] && |rows| == |before| && forall i | 0 <= i < |rows| :: rows[i] == Reconciled(before[i], disk)
    ensures forall i | 0 <= i < |rows| :: rows[i].(missing := true) == rows[i]
  {
  }

  class ClipLibrary {
    var entries: Rows
    var policy: StoragePolicy
    var disk: Disk
    var catalog: Rows

    function Abs(): State
      reads this
    {
      State(entries, disk, catalog)
    }

    /** The first row with the path, or the end of the index. */
    method FindRow(p: Path) returns (i: nat)
      ensures i == RowAt(entries, p)
    {
      i := 0;
      while i < |entries| && entries[i].path != p
        invariant i <= |entries| && i <= RowAt(entries, p)
      {
        i := i + 1;
      }
    }

    // -------------------------------------------------------------------------
    // Scan.

    /** One row and its file. */
    method ReconcileRow(entry: ClipEntry, env: Env) returns (r: Result<ClipEntry, LibraryError>)
      ensures r.Ok? ==> r.value == Reconciled(entry, disk)
      ensures Readable(disk, env) ==> r.Ok?
    {
      hide Refreshed, GameNameFor;
      var p := entry.path;
      if ClipParent(p).None? { return Ok(entry.(missing := true)); }
      if |p| == 2 {
        if env.statFails(p[..1]) { return Err(Io(p[..1])); }
        if p[..1] !in disk || !disk[p[..1]].Directory? { return Ok(entry.(missing := true)); }
      }
      if env.statFails(p) { return Err(Io(p)); }
      if p in disk && disk[p].File? { return Ok(Refreshed(entry.(gameName := GameNameFor(p)), disk[p])); }
      return Ok(entry.(missing := true));
    }

    /** First half of a scan: bring every indexed row up to date. */
    method ReconcileRows(env: Env) returns (error: Option<LibraryError>, seen: set<Path>)
      modifies this`entries
      ensures |entries| == |old(entries)| && forall i | 0 <= i < |entries| :: entries[i].path == old(entries)[i].path
      ensures forall i | 0 <= i < |entries| ::
                entries[i] == old(entries)[i] || entries[i] == Reconciled(old(entries)[i], disk)
      ensures error.None? ==> forall i | 0 <= i < |entries| :: entries[i] == Reconciled(old(entries)[i], disk)
      ensures error.None? ==> forall p :: p in seen <==> p in Paths(old(entries)) && Present(disk, p)
      ensures Readable(disk, env) ==> error.None?
    {
      hide Reconciled, Present;
      seen := {};
      var i := 0;
      while i < |entries|
        invariant i <= |entries| == |old(entries)|
        invariant forall k | 0 <= k < i :: entries[k] == Reconciled(old(entries)[k], disk)
        invariant forall k | 0 <= k < i :: entries[k].path == old(entries)[k].path
        invariant forall k | i <= k < |entries| :: entries[k] == old(entries)[k]
        invariant forall p :: p in seen <==> p in Paths(old(entries)[..i]) && Present(disk, p)
      {
        var entry := entries[i];
        assert old(entries)[..i + 1] == old(entries)[..i] + [entry];
        assert Paths(old(entries)[..i + 1]) == Paths(old(entries)[..i]) + {entry.path};
        var row := ReconcileRow(entry, env);
        if row.Err? { return Some(row.error), seen; }
        ReconciledKeeps(entry, disk);
        entries := entries[i := row.value];
        if !row.value.missing { seen := seen + {entry.path}; }
        i := i + 1;
      }
      assert old(entries)[..i] == old(entries);
      return None, seen;
    }

    /** Index a listed file that was not seen yet. */
    method AddDiscoveredFile(p: Path, file: Node, game: Option<string>, seen: set<Path>) returns (now: set<Path>)
      requires file.File?
      modifies this`entries
      ensures (entries, now) == Added(old(entries), seen, p, file, game)
    {
      if p in seen { return seen; }
      now := seen + {p};
      var i := FindRow(p);
      if i < |entries| {
        entries := entries[i := Refreshed(entries[i].(gameName := game), file)];
      } else {
        entries := entries + [EntryFromFile(p, file, game)];
      }
    }

    /** The clips of one game directory. */
    method WalkGameDirectory(dir: string, env: Env, seen: set<Path>, ghost before: Rows)
      returns (error: Option<LibraryError>, now: set<Path>)
      requires [dir] in disk && disk[[dir]].Directory?
      requires Walking(before, disk, entries, seen)
      modifies this`entries
      ensures Walking(before, disk, entries, now) && seen <= now
      ensures error.None? ==> ChildrenDone(Clips(disk), now, [dir], env.listing([dir]))
      ensures Readable(disk, env) ==> error.None?
    {
      hide Walking, Added, IsSupportedClip, ChildrenDone;
      now := seen;
      if env.readDirFails([dir]) { return Some(Io([dir])), now; }
      var names := env.listing([dir]);
      var j := 0;
      NoChildren(Clips(disk), now, [dir]);
      assert names[..0] == [];
      while j < |names|
        invariant j <= |names|
        invariant Walking(before, disk, entries, now) && seen <= now
        invariant ChildrenDone(Clips(disk), now, [dir], names[..j])
      {
        var p := [dir] + [names[j]];
        assert p[..1] == [dir] && p[0] == dir;
        ghost var done := now;
        if env.statFails(p) { return Some(Io(p)), now; }
        if p in disk && disk[p].File? && IsSupportedClip(p) {
          AddKeepsWalking(before, disk, entries, now, p);
          now := AddDiscoveredFile(p, disk[p], Some(dir), now);
        }
        OneMoreChild(Clips(disk), done, now, [dir], names, j);
        j := j + 1;
      }
      assert names[..j] == names;
      return None, now;
    }

    /** Second half of a scan: the output directory, and each game directory in it. */
    method WalkOutputDirectory(env: Env, seen: set<Path>, ghost before: Rows)
      returns (error: Option<LibraryError>, now: set<Path>)
      requires [] in disk && DiskShape(disk, env) && Walking(before, disk, entries, seen)
      modifies this`entries
      ensures Walking(before, disk, entries, now)
      ensures error.None? ==> Clips(disk) <= now
      ensures Readable(disk, env) ==> error.None?
    {
      hide Walking, Added, IsSupportedClip, ChildrenDone, NamesDone, NameDone, DiskShape;
      now := seen;
      if env.readDirFails([]) || disk[[]].File? { return Some(Io([])), now; }
      var names := env.listing([]);
      var i := 0;
      NoNames(Clips(disk), now);
      assert names[..0] == [];
      while i < |names|
        invariant i <= |names|
        invariant Walking(before, disk, entries, now)
        invariant NamesDone(Clips(disk), now, names[..i])
      {
        var p := [names[i]];
        ghost var done := now;
        if env.statFails(p) { return Some(Io(p)), now; }
        if p in disk && disk[p].File? {
          if IsSupportedClip(p) {
            AddKeepsWalking(before, disk, entries, now, p);
            now := AddDiscoveredFile(p, disk[p], None, now);
          }
        } else if p in disk && disk[p].Directory? {
          error, now := WalkGameDirectory(names[i], env, now, before);
          if error.Some? { return; }
        }
        NameIsDone(disk, env, Clips(disk), now, names[i]);
        OneMoreName(Clips(disk), done, now, names, i);
        i := i + 1;
      }
      assert names[..i] == names;
      AllDone(disk, env, Clips(disk), now);
      return None, now;
    }

    /** Without an output directory there is no clip. */
    method MarkAllMissing()
      modifies this`entries
      ensures |entries| == |old(entries)|
      ensures forall i | 0 <= i < |entries| :: entries[i] == old(entries)[i].(missing := true)
    {
      var i := 0;
      while i < |entries|
        invariant i <= |entries| == |old(entries)|
        invariant forall k | 0 <= k < |entries| ::
                  entries[k] == if k < i then old(entries)[k].(missing := true) else old(entries)[k]
      {
        entries := entries[i := entries[i].(missing := true)];
        i := i + 1;
      }
    }

    // -------------------------------------------------------------------------
    // Delete and rename.

    /** A free name beside the clip; the counter saturates, but cannot get that far. */
    method DeleteStagedPath(p: Path, env: Env) returns (candidate: Path)
      requires p != [] && |disk| < U32_MAX
      ensures candidate == StagedPath(disk, env, p)
    {
      hide StagedName;
      candidate := StagedName(p, 0);
      var index := 1;
      while Occupied(disk, env, candidate)
        invariant 1 <= index <= |disk| + 1 && candidate == StagedName(p, index - 1)
        invariant forall k | 0 <= k < index - 1 :: Occupied(disk, env, StagedName(p, k))
        decreases |disk| + 1 - index
      {
        OccupiedChoicesBounded(disk, p, index);
        candidate := StagedName(p, index);
        index := Min(index + 1, U32_MAX);
      }
      FreeChoiceIs(disk, env, p, index - 1);
    }

    /** The place of a row. */
    method FindEntryIndex(p: Path) returns (r: Result<nat, LibraryError>)
      ensures r == FindEntry(entries, p)
    {
      if ClipParent(p).None? { return Err(InvalidPath); }
      var i := FindRow(p);
      return if i < |entries| then Ok(i) else Err(NotIndexed);
    }

    method Delete(p: Path, env: Env) returns (r: Result<(), LibraryError>)
      requires |disk| < U32_MAX
      modifies this`entries, this`disk, this`catalog
      ensures (Abs(), r) == Deleted(old(Abs()), p, env)
    {
      hide RowAt, StagedPath;
      var found := FindEntryIndex(p);
      if found.Err? { return Err(found.error); }
      var index := found.value;
      assert FindEntry(entries, p) == Ok(index);
      var checked := Checked(entries[index], disk, env);
      if checked == Err(MissingClip) {
        entries := WithoutRow(entries, index);
        if env.saveFails(p) { return Err(CatalogWrite); }
        catalog := entries;
        return Ok(());
      }
      if checked.Err? { return Err(checked.error); }
      CheckedIsFile(entries[index], disk, env);
      r := DeleteCheckedFile(index, env);
    }

    method DeleteCheckedFile(index: nat, env: Env) returns (r: Result<(), LibraryError>)
      requires index < |entries| && entries[index].path != [] && entries[index].path in disk && |disk| < U32_MAX
      modifies this`entries, this`disk, this`catalog
      ensures (Abs(), r) == DeleteFile(old(Abs()), index, env)
    {
      hide StagedPath;
      var p := entries[index].path;
      var staged := DeleteStagedPath(p, env);
      if CannotMove(disk, env, p, staged) { return Err(Io(p)); }
      disk := Move(disk, p, staged);
      var previous := entries[index];
      entries := WithoutRow(entries, index);
      if env.saveFails(p) {
        var rolledBack := !env.rollbackFails(p);
        if rolledBack { disk := Move(disk, staged, p); }
        entries := entries[..index] + [previous] + entries[index..];
        assert entries == old(entries);
        return Err(if rolledBack then CatalogWrite else RollbackFailed);
      }
      catalog := entries;
      if env.removeFails(p) { return Err(Io(staged)); }
      disk := disk - {staged};
      return Ok(());
    }

    method Rename(p: Path, requested: string, env: Env) returns (r: Result<ClipEntry, LibraryError>)
      modifies this`entries, this`disk, this`catalog
      ensures (Abs(), r) == Renamed(old(Abs()), p, requested, env)
    {
      hide RowAt, RenamedPath;
      var found := FindEntryIndex(p);
      if found.Err? { return Err(found.error); }
      var index := found.value;
      assert FindEntry(entries, p) == Ok(index);
      var checked := Checked(entries[index], disk, env);
      if checked.Err? { return Err(checked.error); }
      CheckedIsFile(entries[index], disk, env);
      var target := RenamedPath(p, requested);
      if target.Err? { return Err(target.error); }
      if target.value == p { return Ok(entries[index]); }
      if Occupied(disk, env, target.value) || exists e :: e in entries && e.path == target.value {
        return Err(AlreadyExists);
      }
      r := RenameCheckedFile(index, target.value, env);
    }

    method SetProtected(p: Path, flag: bool, env: Env) returns (r: Result<ClipEntry, LibraryError>)
      modifies this`entries, this`catalog
      ensures (Abs(), r) == ProtectionSet(old(Abs()), p, flag, env)
    {
      hide RowAt;
      var found := FindEntryIndex(p);
      if found.Err? { return Err(found.error); }
      var index := found.value;
      assert FindEntry(entries, p) == Ok(index);
      if !entries[index].missing {
        var checked := Checked(entries[index], disk, env);
        if checked.Err? { return Err(checked.error); }
      }
      entries := entries[index := entries[index].(isProtected := flag)];
      if env.saveFails(p) { return Err(CatalogWrite); }
      catalog := entries;
      return Ok(entries[index]);
    }

    method RenameCheckedFile(index: nat, target: Path, env: Env) returns (r: Result<ClipEntry, LibraryError>)
      requires index < |entries| && entries[index].path in disk
      modifies this`entries, this`disk, this`catalog
      ensures (Abs(), r) == RenameFile(old(Abs()), index, target, env)
    {
      var p := entries[index].path;
      if CannotMove(disk, env, p, target) { return Err(Io(p)); }
      disk := Move(disk, p, target);
      var previous := entries[index];
      entries := entries[index := previous.(path := target, name := FileName(target), missing := false)];
      if env.saveFails(p) {
        var rolledBack := !env.rollbackFails(p);
        if rolledBack { disk := Move(disk, target, p); }
        entries := entries[index := previous];
        assert entries == old(entries);
        return Err(if rolledBack then CatalogWrite else RollbackFailed);
      }
      catalog := entries;
      return Ok(entries[index]);
    }

    // -------------------------------------------------------------------------
    // Quota.

    method EnforceStoragePolicy(env: Env) returns (r: Result<Deletions, LibraryError>)
      requires |disk| < U32_MAX
      modifies this`entries, this`disk, this`catalog
      ensures (Abs(), r) == Enforced(old(Abs()), policy, env)
    {
      hide Deleted, PresentBytes, Evict, StillToDelete, RowAt, Candidates, AfterSome;
      if policy.quotaBytes.None? || !policy.automaticDeletion { return Ok(Deletions(0, 0)); }
      var quota := policy.quotaBytes.value;
      var total: nat := SumPresentBytes();
      var candidates := Candidates(entries);
      var count: nat, bytes: nat := 0, 0;
      ghost var wanted := Evict(Abs(), candidates, total, quota, env);
      AllToDelete(wanted, Abs(), candidates, total, quota, env);
      var i := 0;
      while i < |candidates| && total > quota
        invariant i <= |candidates| && |disk| < U32_MAX
        invariant StillToDelete(wanted, Abs(), candidates, i, total, quota, env, count, bytes)
      {
        var p := candidates[i].path;
        ghost var here := Abs();
        var found := FindRow(p);
        NextToDelete(wanted, here, candidates, i, total, quota, env, count, bytes);
        if found < |entries| {
          var size := entries[found].sizeBytes;
          var deleted := Delete(p, env);
          if deleted.Err? { return Err(deleted.error); }
          StillFits(here, p, env);
          total := Max(total - size, 0);
          count, bytes := count + 1, bytes + size;
        }
        i := i + 1;
      }
      NoneToDelete(wanted, Abs(), candidates, i, total, quota, env, count, bytes);
      return Ok(Deletions(count, bytes));
    }

    method SumPresentBytes() returns (total: nat)
      ensures total == PresentBytes(entries)
    {
      total := 0;
      var i := 0;
      assert entries[0..] == entries;
      while i < |entries|
        invariant i <= |entries| && total + PresentBytes(entries[i..]) == PresentBytes(entries)
      {
        assert entries[i..][1..] == entries[i + 1..];
        if !entries[i].missing { total := total + entries[i].sizeBytes; }
        i := i + 1;
      }
    }

    // -------------------------------------------------------------------------
    // Opening.

    /** Remove what interrupted saves and deletes left behind. */
    method CleanupTemporaryFiles(env: Env) returns (ok: bool)
      requires DiskShape(disk, env)
      modifies this`disk
      ensures ok ==> disk == Swept(old(disk))
      ensures Sweeping(old(disk), disk)
      ensures Readable(old(disk), env) && ExactListings(old(disk), env) && (forall p :: !env.removeFails(p)) ==> ok
    {
      hide IsTemporary, ChildrenDone, NamesDone, NameDone, DiskShape;
      hide Sweeping, Untouched, ChildrenUntouched, ExactListings;
      ghost var before := disk;
      NothingSwept(disk);
      if env.readDirFails([]) || ([] in disk && disk[[]].File?) { return false; }
      if [] !in disk {
        EmptyDisk(disk, env);
        return true;
      }
      var names := env.listing([]);
      ghost var exact := Readable(before, env) && ExactListings(before, env) && forall p :: !env.removeFails(p);
      var i := 0;
      NoNames(Leftovers(before), Gone(before, disk));
      assert names[..0] == [] && names[0..] == names;
      AllUntouched(disk, names);
      while i < |names|
        invariant i <= |names|
        invariant Sweeping(before, disk)
        invariant NamesDone(Leftovers(before), Gone(before, disk), names[..i])
        invariant exact ==> Untouched(before, disk, names[i..])
      {
        var p := [names[i]];
        ghost var now := disk;
        StillThere(before, disk, p);
        if exact { ListedIsThere(before, disk, env, names, i); }
        if env.statFails(p) || p !in disk { return false; }
        if disk[p].File? && IsTemporary(FileName(p)) {
          if env.removeFails(p) { return false; }
          SweepOne(before, disk, p);
          disk := disk - {p};
        } else if disk[p].Directory? {
          ok := CleanupGameDirectory(names[i], env, before);
          if !ok { return; }
        }
        NameIsDone(before, env, Leftovers(before), Gone(before, disk), names[i]);
        OneMoreName(Leftovers(before), Gone(before, now), Gone(before, disk), names, i);
        if exact { UntouchedNext(before, now, disk, env, names, i); }
        i := i + 1;
      }
      assert names[..i] == names;
      AllDone(before, env, Leftovers(before), Gone(before, disk));
      AllSwept(before, disk);
      return true;
    }

    method CleanupGameDirectory(dir: string, env: Env, ghost before: Disk) returns (ok: bool)
      requires Sweeping(before, disk) && [dir] in before && before[[dir]].Directory?
      modifies this`disk
      ensures Sweeping(before, disk) && Gone(before, old(disk)) <= Gone(before, disk)
      ensures ok ==> ChildrenDone(Leftovers(before), Gone(before, disk), [dir], env.listing([dir]))
      ensures forall p | p in old(disk) && p !in disk :: p != [] && p[0] == dir
      ensures Readable(before, env) && ExactListings(before, env) && (forall p :: !env.removeFails(p)) ==>
                ChildrenUntouched(before, old(disk), [dir], env.listing([dir])) ==> ok
    {
      hide IsTemporary, ChildrenDone, Sweeping, ChildrenUntouched, ExactListings;
      if env.readDirFails([dir]) { return false; }
      var names := env.listing([dir]);
      ghost var exact := Readable(before, env) && ExactListings(before, env) && (forall p :: !env.removeFails(p))
                         && ChildrenUntouched(before, disk, [dir], names);
      var j := 0;
      NoChildren(Leftovers(before), Gone(before, disk), [dir]);
      assert names[..0] == [] && names[0..] == names;
      while j < |names|
        invariant j <= |names|
        invariant Sweeping(before, disk) && Gone(before, old(disk)) <= Gone(before, disk)
        invariant ChildrenDone(Leftovers(before), Gone(before, disk), [dir], names[..j])
        invariant forall p | p in old(disk) && p !in disk :: p != [] && p[0] == dir
        invariant exact ==> ChildrenUntouched(before, disk, [dir], names[j..])
      {
        var p := [dir] + [names[j]];
        assert p[..1] == [dir];
        ghost var now := disk;
        StillThere(before, disk, p);
        if exact { ChildrenUntouchedNext(before, disk, disk - {p}, env, [dir], names, j); }
        if env.statFails(p) || p !in disk { return false; }
        if disk[p].File? && IsTemporary(FileName(p)) {
          if env.removeFails(p) { return false; }
          SweepOne(before, disk, p);
          disk := disk - {p};
        }
        if exact { ChildrenUntouchedNext(before, now, disk, env, [dir], names, j); }
        OneMoreChild(Leftovers(before), Gone(before, now), Gone(before, disk), [dir], names, j);
        j := j + 1;
      }
      assert names[..j] == names;
      return true;
    }

    // -------------------------------------------------------------------------

    /** Bring the index into agreement with the files, in memory. */
    method ReconcileWithDisk(env: Env) returns (error: Option<LibraryError>)
      requires Distinct(entries) && DiskShape(disk, env)
      modifies this`entries
      ensures HalfScanned(old(entries), disk, entries)
      ensures error.None? ==> ScanPost(old(entries), disk, entries)
      ensures Readable(disk, env) ==> error.None?
    {
      hide Reconciled, ScanPost, HalfScanned, Walking, IsSupportedClip, Distinct, DiskShape;
      ghost var before := entries;
      var seen;
      error, seen := ReconcileRows(env);
      PartlyReconciled(before, disk, entries);
      if error.Some? { return; }
      WalkStarts(before, disk, entries, seen);
      if env.readDirFails([]) { return Some(Io([])); }
      if [] in disk {
        error, seen := WalkOutputDirectory(env, seen, before);
        WalkingIsHalfScanned(before, disk, entries, seen);
        if error.Some? { return; }
      } else {
        NoClips(disk, env);
        AllMissingAlready(before, disk, entries);
        ghost var reconciled := entries;
        MarkAllMissing();
        assert entries == reconciled;
      }
      hide Paths;
      ClipsAreDiscoverable(disk);
      WalkedAndSorted(before, disk, entries, seen);
      entries := StableSort(RowLe, entries);
      ScannedIsHalfScanned(before, disk, entries);
    }

    /**
     * Reconcile the index with the files, save it, and enforce the storage policy. `scanned` is
     * the index as saved, before any clip is deleted for the quota. A scan that fails earlier has
     * changed the index in memory only, and some way towards the files.
     */
    method Scan(env: Env) returns (r: Result<Rows, LibraryError>, ghost scanned: Option<Rows>)
      requires Distinct(entries) && DiskShape(disk, env) && |disk| < U32_MAX
      modifies this`entries, this`disk, this`catalog
      ensures scanned.None? ==>
                && r.Err? && disk == old(disk) && catalog == old(catalog)
                && HalfScanned(old(entries), old(disk), entries)
      ensures Distinct(entries)
      ensures scanned.Some? ==>
                && ScanPost(old(entries), old(disk), scanned.value)
                && var (t, e) := Enforced(State(scanned.value, old(disk), scanned.value), policy, env);
                   Abs() == t && r == if e.Err? then Err(e.error) else Ok(t.rows)
      ensures Readable(old(disk), env) && !env.saveFails([]) ==> scanned.Some?
    {
      hide Enforced, ScanPost, HalfScanned, Readable, Paths, DiskShape;
      ghost var before := entries;
      var error := ReconcileWithDisk(env);
      HalfScannedKeeps(before, disk, entries);
      hide Distinct;
      if error.Some? { return Err(error.value), None; }
      if env.saveFails([]) { return Err(CatalogWrite), None; }
      catalog := entries;
      scanned := Some(entries);
      EnforcedLeavesOthers(Abs(), policy, env);
      assert Distinct(Enforced(Abs(), policy, env).0.rows);
      var enforced := EnforceStoragePolicy(env);
      r := if enforced.Err? then Err(enforced.error) else Ok(entries);
    }
  }
}
