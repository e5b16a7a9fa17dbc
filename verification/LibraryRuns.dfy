/** Whole runs of openings, scans, deletes, renames and protection requests. */
module LibraryRuns {
  import opened Common
  import opened ClipIndex
  import opened LibraryScan
  import opened LibraryActions
  import opened LibraryQuota
  import opened LibraryCleanup
  import opened LibraryFrames
  import Patterns

  /**
   * One operation, with what it did: a scan that saved the index, or one that failed before; an
   * opening after its cleanup, with a catalog that could be read or not.
   */
  datatype Op =
    | Scan(policy: StoragePolicy, env: Env, scanned: Rows)
    | FailedScan(rows: Rows)
    | Delete(path: Path, env: Env)
    | Rename(path: Path, requested: string, env: Env)
    | SetProtected(path: Path, flag: bool, env: Env)
    | Open(cleaned: Disk, readable: bool)

  /** An opening whose cleanup stops half way fails; what it removed counts once a later one succeeds. */
  ghost predicate Enabled(s: State, op: Op) {
    match op
    case Scan(_, _, scanned) => ScanPost(s.rows, s.disk, scanned)
    case FailedScan(rows) => HalfScanned(s.rows, s.disk, rows)
    case Open(cleaned, _) => cleaned == Swept(s.disk)
    case _ => true
  }

  /** The rows of the catalog that lie in the output directory or a game directory. */
  function Loaded(catalog: Rows): Rows {
    if catalog == [] then [] else
    var e := catalog[0];
    (if ClipParent(e.path).Some? then [e.(gameName := GameNameFor(e.path))] else []) + Loaded(catalog[1..])
  }

  /** The state after an operation, successful or not. */
  function Take(s: State, op: Op): State {
    match op
    case Scan(policy, env, scanned) => Enforced(State(scanned, s.disk, scanned), policy, env).0
    case FailedScan(rows) => s.(rows := rows)
    case Delete(p, env) => Deleted(s, p, env).0
    case Rename(p, requested, env) => Renamed(s, p, requested, env).0
    case SetProtected(p, flag, env) => ProtectionSet(s, p, flag, env).0
    case Open(cleaned, readable) => s.(rows := if readable then Loaded(s.catalog) else [], disk := cleaned)
  }

  ghost predicate Legal(s: State, run: seq<Op>)
    decreases |run|
  {
    run == [] || (Enabled(s, run[0]) && Legal(Take(s, run[0]), run[1..]))
  }

  function After(s: State, run: seq<Op>): State
    decreases |run|
  {
    if run == [] then s else After(Take(s, run[0]), run[1..])
  }

  lemma {:induction false} LoadedMembers(catalog: Rows, e: ClipEntry)
    ensures e in Loaded(catalog) ==> e.path in Paths(catalog)
    ensures e in catalog && ClipParent(e.path).Some? ==> e.(gameName := GameNameFor(e.path)) in Loaded(catalog)
  {
    if catalog != [] {
      LoadedMembers(catalog[1..], e);
      assert catalog == [catalog[0]] + catalog[1..];
      assert catalog[0] in catalog;
    }
  }

  /** An opening loads the rows of paths that a clip may have, in their order, with the game of their directory. */
  lemma {:induction false} LoadedExactly(catalog: Rows)
    requires forall e | e in catalog :: 1 <= |e.path| <= 2
    ensures |Loaded(catalog)| == |catalog|
    ensures forall i | 0 <= i < |catalog| ::
              Loaded(catalog)[i] ==
              catalog[i].(gameName := if |catalog[i].path| == 2 then Some(catalog[i].path[0]) else None)
  {
    if catalog != [] {
      assert catalog == [catalog[0]] + catalog[1..];
      assert catalog[0] in catalog;
      LoadedExactly(catalog[1..]);
    }
  }

  lemma {:induction false} NothingElseIsLoaded(catalog: Rows, e: ClipEntry)
    ensures e in Loaded(catalog) ==>
              1 <= |e.path| <= 2 && exists o :: o in catalog && e == o.(gameName := GameNameFor(o.path))
  {
    if catalog != [] {
      NothingElseIsLoaded(catalog[1..], e);
      assert catalog == [catalog[0]] + catalog[1..];
      assert catalog[0] in catalog;
    }
  }

  lemma {:induction false} LoadedDistinct(catalog: Rows)
    requires Distinct(catalog)
    ensures Distinct(Loaded(catalog))
  {
    if catalog != [] {
      LoadedDistinct(catalog[1..]);
      forall e | e in Loaded(catalog[1..]) ensures e.path != catalog[0].path {
        LoadedMembers(catalog[1..], e);
        var i :| 0 <= i < |catalog[1..]| && catalog[1..][i].path == e.path;
        assert catalog[i + 1].path == e.path;
      }
    }
  }

  // ---------------------------------------------------------------------------
  // A protected clip.

  predicate ProtectedAt(rows: Rows, p: Path) {
    exists e :: e in rows && e.path == p && e.isProtected
  }

  /** Paths are distinct, in memory and in the catalog. */
  ghost predicate Indexed(s: State) {
    Distinct(s.rows) && Distinct(s.catalog)
  }

  /** The clip is protected, in memory and in the catalog, and its file is this one. */
  ghost predicate Guarded(s: State, p: Path, file: Node) {
    && 1 <= |p| <= 2
    && ProtectedAt(s.rows, p) && ProtectedAt(s.catalog, p)
    && p in s.disk && s.disk[p] == file
  }

  /** The operation is not a request to delete, rename or give up this clip, and can read the catalog. */
  predicate Spares(op: Op, p: Path) {
    match op
    case Delete(q, _) => q != p
    case Rename(q, _, _) => q != p
    case SetProtected(q, flag, _) => q != p || flag
    case Open(_, readable) => readable
    case _ => true
  }

  lemma LeftAlone(s: State, t: State, touched: set<Path>, risked: iset<Path>, p: Path, file: Node)
    requires Indexed(s) && LeavesOthers(s, t, touched, risked)
    ensures Indexed(t)
    ensures Guarded(s, p, file) && p !in touched && p !in risked ==> Guarded(t, p, file)
  {
  }

  lemma ScanKeeps(s: State, policy: StoragePolicy, env: Env, scanned: Rows, p: Path, file: Node)
    requires Indexed(s) && ScanPost(s.rows, s.disk, scanned)
    ensures var t := Take(s, Scan(policy, env, scanned));
            && Indexed(t)
            && (Guarded(s, p, file) && !IsTemporary(FileName(p)) ==> Guarded(t, p, file))
  {
    var saved := State(scanned, s.disk, scanned);
    var touched := Paths(Candidates(scanned));
    HalfScanKeeps(s, scanned, p, file);
    EnforcedLeavesOthers(saved, policy, env);
    hide IsTemporary, RiskedByDeleting, Enforced, Candidates;
    LeftAlone(saved, Enforced(saved, policy, env).0, touched, RiskedByDeleting(touched, env), p, file);
    if p !in touched && !IsTemporary(FileName(p)) { OnlyTemporariesAreRisked(touched, env, p); }
  }

  lemma HalfScanKeeps(s: State, rows: Rows, p: Path, file: Node)
    requires Indexed(s) && (HalfScanned(s.rows, s.disk, rows) || ScanPost(s.rows, s.disk, rows))
    ensures Distinct(rows)
    ensures ProtectedAt(s.rows, p) ==> ProtectedAt(rows, p)
  {
    if ScanPost(s.rows, s.disk, rows) { ScannedIsHalfScanned(s.rows, s.disk, rows); }
    HalfScannedKeeps(s.rows, s.disk, rows);
    hide HalfScanned, ScanPost;
    if ProtectedAt(s.rows, p) {
      assert p in Paths(rows);
      var e :| e in rows && e.path == p;
    }
  }

  lemma OpenKeeps(s: State, readable: bool, p: Path, file: Node)
    requires Indexed(s)
    ensures var t := Take(s, Open(Swept(s.disk), readable));
            && Indexed(t)
            && (Guarded(s, p, file) && readable && !IsLeftover(s.disk, p) ==> Guarded(t, p, file))
  {
    LoadedDistinct(s.catalog);
    if ProtectedAt(s.catalog, p) && 1 <= |p| <= 2 {
      var e :| e in s.catalog && e.path == p && e.isProtected;
      LoadedMembers(s.catalog, e);
      assert e.(gameName := GameNameFor(e.path)) in Loaded(s.catalog);
    }
  }

  lemma DeleteKeeps(s: State, q: Path, env: Env, p: Path, file: Node)
    requires Indexed(s)
    ensures var t := Take(s, Delete(q, env));
            && Indexed(t)
            && (Guarded(s, p, file) && q != p && !IsTemporary(FileName(p)) ==> Guarded(t, p, file))
  {
    DeleteLeavesOthers(s, q, env);
    hide IsTemporary, RiskedByDeleting, Deleted;
    LeftAlone(s, Deleted(s, q, env).0, {q}, RiskedByDeleting({q}, env), p, file);
    if q != p && !IsTemporary(FileName(p)) { OnlyTemporariesAreRisked({q}, env, p); }
  }

  /** A path in the index is no free target of a rename. */
  lemma RenameKeeps(s: State, q: Path, requested: string, env: Env, p: Path, file: Node)
    requires Indexed(s)
    ensures var t := Take(s, Rename(q, requested, env));
            Indexed(t) && (Guarded(s, p, file) && q != p ==> Guarded(t, p, file))
  {
    RenameLeavesOthers(s, q, requested, env);
    hide Renamed, RenamedPath;
    LeftAlone(s, Renamed(s, q, requested, env).0, {q}, RiskedByRenaming(s.rows, q, requested, env), p, file);
  }

  lemma ProtectionKeeps(s: State, q: Path, flag: bool, env: Env, p: Path, file: Node)
    requires Indexed(s)
    ensures var t := Take(s, SetProtected(q, flag, env));
            Indexed(t) && (Guarded(s, p, file) && (q != p || flag) ==> Guarded(t, p, file))
  {
    ProtectionLeavesOthers(s, q, flag, env);
    LeftAlone(s, ProtectionSet(s, q, flag, env).0, {q}, iset{}, p, file);
    hide LeavesOthers, Distinct, Checked;
    if q == p && flag && Guarded(s, p, file) { StillProtected(s, p, env); }
  }

  lemma StillProtected(s: State, p: Path, env: Env)
    requires ProtectedAt(s.rows, p) && ProtectedAt(s.catalog, p)
    ensures var t := ProtectionSet(s, p, true, env).0;
            t.disk == s.disk && ProtectedAt(t.rows, p) && ProtectedAt(t.catalog, p)
  {
    RowAtFinds(s.rows, p);
    var i := RowAt(s.rows, p);
    assert p in Paths(s.rows);
    var rows := s.rows[i := s.rows[i].(isProtected := true)];
    assert rows[i] in rows;
    hide Checked, RowAt;
  }

  lemma StepKeeps(s: State, op: Op, p: Path, file: Node)
    requires Enabled(s, op) && Indexed(s)
    ensures Indexed(Take(s, op))
    ensures Guarded(s, p, file) && Spares(op, p) && !IsTemporary(FileName(p)) ==> Guarded(Take(s, op), p, file)
  {
    hide Indexed, Guarded, Take, IsTemporary;
    match op
    case Delete(q, env) => DeleteKeeps(s, q, env, p, file);
    case Rename(q, requested, env) => RenameKeeps(s, q, requested, env, p, file);
    case SetProtected(q, flag, env) => ProtectionKeeps(s, q, flag, env, p, file);
    case Scan(policy, env, scanned) => ScanKeeps(s, policy, env, scanned, p, file);
    case FailedScan(rows) => FailedScanKeeps(s, rows, p, file);
    case Open(_, readable) => OpenKeeps(s, readable, p, file);
  }

  lemma FailedScanKeeps(s: State, rows: Rows, p: Path, file: Node)
    requires Indexed(s) && HalfScanned(s.rows, s.disk, rows)
    ensures var t := Take(s, FailedScan(rows));
            Indexed(t) && (Guarded(s, p, file) ==> Guarded(t, p, file))
  {
    HalfScanKeeps(s, rows, p, file);
  }

  /**
   * Over every run of openings, of scans under any quota, complete or failed half way, of protection
   * requests, and of deletes and renames of other clips, whatever fails on the way: a protected clip
   * keeps its row, its flag and its file, if its name is not that of a temporary file.
   */
  lemma {:induction false} ProtectedClipSurvives(s: State, run: seq<Op>, p: Path, file: Node)
    requires Legal(s, run) && Indexed(s) && Guarded(s, p, file) && !IsTemporary(FileName(p))
    requires forall op | op in run :: Spares(op, p)
    ensures Guarded(After(s, run), p, file)
    decreases |run|
  {
    hide Indexed, Guarded, Take, Enabled, IsTemporary;
    if run != [] {
      assert run[0] in run && forall op | op in run[1..] :: op in run;
      StepKeeps(s, run[0], p, file);
      ProtectedClipSurvives(Take(s, run[0]), run[1..], p, file);
    }
  }

  /** A protection request that succeeds guards the clip, if its file is there. */
  lemma ProtectionGuards(s: State, p: Path, env: Env)
    requires ProtectionSet(s, p, true, env).1.Ok? && p in s.disk
    ensures Guarded(Take(s, SetProtected(p, true, env)), p, s.disk[p])
  {
    hide Checked, RowAt;
    var t := ProtectionSet(s, p, true, env).0;
    assert t.rows[FindEntry(s.rows, p).value] in t.rows;
  }

  lemma FirstScanFinds(disk: Disk, scanned: Rows, p: Path)
    requires ScanPost([], disk, scanned) && Discoverable(disk, p)
    ensures Distinct(scanned) && Discovered(p, disk) in scanned
  {
    hide RowLe, IsSupportedClip, Duration;
  }

  lemma PresentIsChecked(disk: Disk, p: Path, env: Env)
    requires Present(disk, p) && !env.canonicalFails(p) && !env.statFails(p) && !env.statFails(p[..1])
    ensures ClipParent(p).Some? && Discovered(p, disk).path == p
    ensures Checked(Discovered(p, disk), disk, env).Ok?
  {
    hide Duration;
  }

  /** Every clip that a first scan finds can be protected, when nothing fails. */
  lemma ScannedClipCanBeProtected(disk: Disk, scanned: Rows, p: Path, env: Env)
    requires ScanPost([], disk, scanned) && Discoverable(disk, p)
    requires !env.saveFails(p) && !env.canonicalFails(p) && !env.statFails(p) && !env.statFails(p[..1])
    ensures ProtectionSet(State(scanned, disk, scanned), p, true, env).1.Ok?
  {
    FirstScanFinds(disk, scanned, p);
    PresentIsChecked(disk, p, env);
    hide ScanPost, Discoverable, Discovered, Checked, Distinct;
    var i :| 0 <= i < |scanned| && scanned[i] == Discovered(p, disk);
    RowAtUnique(scanned, i);
  }

  /**
   * From an empty index, over every run: once a protection request for a clip has succeeded, the
   * clip and its file stay through every run that does not ask for anything else.
   */
  lemma ProtectedOnceSurvives(disk: Disk, before: seq<Op>, p: Path, env: Env, run: seq<Op>)
    requires Legal(State([], disk, []), before)
    requires var s := After(State([], disk, []), before);
             && ProtectionSet(s, p, true, env).1.Ok? && p in s.disk
             && Legal(Take(s, SetProtected(p, true, env)), run)
    requires !IsTemporary(FileName(p)) && forall op | op in run :: Spares(op, p)
    ensures var s := After(State([], disk, []), before);
            Guarded(After(Take(s, SetProtected(p, true, env)), run), p, s.disk[p])
  {
    PathsStayDistinct(State([], disk, []), before);
    var s := After(State([], disk, []), before);
    ProtectionGuards(s, p, env);
    StepKeeps(s, SetProtected(p, true, env), p, s.disk[p]);
    hide Guarded, Take, Legal, After, ProtectionSet, IsTemporary;
    ProtectedClipSurvives(Take(s, SetProtected(p, true, env)), run, p, s.disk[p]);
  }

  /** An opening keeps a protected clip exactly when its name lacks the mark of a deleted clip. */
  lemma OpeningKeepsProtectedExactlyWhen(s: State, p: Path, file: Node)
    requires Indexed(s) && Guarded(s, p, file) && Discoverable(s.disk, p)
    ensures Guarded(Take(s, Open(Swept(s.disk), true)), p, file) <==>
            !Patterns.Contains(FileName(p), STAGED_MARK)
  {
    ClipIsSweptExactlyWhen(s.disk, p);
    OpenKeeps(s, true, p, file);
    hide Discoverable, IsTemporary, Patterns.Contains, Loaded, Indexed;
  }

  /** Paths stay distinct over every run, in memory and in the catalog. */
  lemma {:induction false} PathsStayDistinct(s: State, run: seq<Op>)
    requires Legal(s, run) && Indexed(s)
    ensures Indexed(After(s, run))
    decreases |run|
  {
    hide Indexed, Take, Enabled;
    if run != [] {
      StepKeeps(s, run[0], [], Directory);
      PathsStayDistinct(Take(s, run[0]), run[1..]);
    }
  }
}
