/** What a scan makes of the index: one reconciliation of the old rows with the files on disk. */
module LibraryScan {
  import opened Common
  import opened Sorting
  import opened ClipIndex
  import Mp4Box

  /** The directory of a clip is the output directory, or a regular game directory. */
  predicate SafeParent(disk: Disk, p: Path) {
    |p| == 1 || (|p| == 2 && p[..1] in disk && disk[p[..1]].Directory?)
  }

  /** A regular file lies at the path, below a safe parent. */
  predicate Present(disk: Disk, p: Path) {
    SafeParent(disk, p) && p in disk && disk[p].File?
  }

  predicate Discoverable(disk: Disk, p: Path) {
    Present(disk, p) && IsSupportedClip(p)
  }

  function Reconciled(e: ClipEntry, disk: Disk): ClipEntry {
    if Present(disk, e.path) then Refreshed(e.(gameName := GameNameFor(e.path)), disk[e.path])
    else e.(missing := true)
  }

  /** The row of a file that was not indexed before. */
  function Discovered(p: Path, disk: Disk): ClipEntry
    requires Present(disk, p)
  {
    EntryFromFile(p, disk[p], GameNameFor(p))
  }

  /** A row read from a clip that was not indexed before. */
  predicate NewRow(before: Rows, disk: Disk, e: ClipEntry) {
    e.path in disk && Discoverable(disk, e.path) && e.path !in Paths(before) && e == Discovered(e.path, disk)
  }

  /** Nothing exists without the output directory, and listings hold every entry of a directory. */
  ghost predicate DiskShape(disk: Disk, env: Env) {
    && (disk == map[] || [] in disk)
    && forall p | p in disk && p != [] :: p[|p| - 1] in env.listing(p[..|p| - 1])
  }

  /**
   * The index after a scan: every old path and every discoverable clip, each once, sorted; an old
   * row reconciled with its file, a new one read from it.
   */
  ghost predicate ScanPost(before: Rows, disk: Disk, rows: Rows) {
    && Distinct(rows)
    && Sorted(RowLe, rows)
    && (forall e | e in before :: Reconciled(e, disk) in rows)
    && (forall p | p in disk && Discoverable(disk, p) && p !in Paths(before) :: Discovered(p, disk) in rows)
    && forall e | e in rows ::
         || (exists o | o in before :: e == Reconciled(o, disk))
         || NewRow(before, disk, e)
  }

  /**
   * The index after a scan that stopped half way: every old row is there, reconciled or as it was,
   * and every other row was read from a clip; paths are distinct.
   */
  ghost predicate HalfScanned(before: Rows, disk: Disk, rows: Rows) {
    && Distinct(rows)
    && (forall e | e in before :: e in rows || Reconciled(e, disk) in rows)
    && forall e | e in rows ::
         || (exists o | o in before :: e == o || e == Reconciled(o, disk))
         || NewRow(before, disk, e)
  }

  lemma ReconciledKeeps(e: ClipEntry, disk: Disk)
    ensures var r := Reconciled(e, disk);
            && r.path == e.path && r.isProtected == e.isProtected
            && (e.createdAt.Some? ==> r.createdAt == e.createdAt)
            && (r.missing <==> !Present(disk, e.path))
            && (!r.missing ==>
                  disk[e.path].File? && r.sizeBytes == |disk[e.path].bytes|
                  && r.name == FileName(e.path) && r.gameName == GameNameFor(e.path)
                  && r.durationMs == OrElse(Duration(e.path, disk[e.path].bytes), e.durationMs))
            && (r.missing ==> r == e.(missing := true))
  {
  }

  lemma ReconciledLearns(o: ClipEntry, disk: Disk)
    ensures LearnsFrom(o, Reconciled(o, disk), disk)
  {
    hide Mp4Box.FileDuration, IsSupportedClip, Present;
  }

  /** A non-missing row shows what its file says. */
  predicate ShowsFile(e: ClipEntry, disk: Disk) {
    && Present(disk, e.path)
    && e.sizeBytes == |disk[e.path].bytes|
    && e.name == e.path[|e.path| - 1]
    && e.gameName == (if |e.path| == 2 then Some(e.path[0]) else None)
    && (IsSupportedClip(e.path) && Mp4Box.FileDuration(disk[e.path].bytes).Some? ==>
          e.durationMs == Mp4Box.FileDuration(disk[e.path].bytes))
  }

  /** The index agrees with the disk. */
  ghost predicate AgreesWithDisk(rows: Rows, disk: Disk) {
    forall e | e in rows :: if e.missing then !Present(disk, e.path) else ShowsFile(e, disk)
  }

  /** What a scan never changes about a row, and what it changes about a missing one. */
  predicate Survives(o: ClipEntry, e: ClipEntry) {
    && e.isProtected == o.isProtected
    && (o.createdAt.Some? ==> e.createdAt == o.createdAt)
    && (e.missing ==> e == o.(missing := true))
  }

  /** What a scan knows of a present row that it had not recorded before. */
  predicate LearnsFrom(o: ClipEntry, e: ClipEntry, disk: Disk) {
    Present(disk, e.path) ==>
      && (o.createdAt.None? ==> e.createdAt == disk[e.path].created)
      && (Mp4Box.FileDuration(disk[e.path].bytes).None? ==> e.durationMs == o.durationMs)
  }

  ghost predicate AllLearn(before: Rows, disk: Disk, rows: Rows) {
    forall o, e | o in before && e in rows && e.path == o.path :: LearnsFrom(o, e, disk)
  }

  ghost predicate AllSurvive(before: Rows, rows: Rows) {
    forall o, e | o in before && e in rows && e.path == o.path :: Survives(o, e)
  }

  function Clips(disk: Disk): set<Path> {
    set p | p in disk && Discoverable(disk, p)
  }

  /**
   * After a scan the index agrees with the disk and has one row for each old path and each clip
   * found; flags and recorded ages survive, and a row without a file changes in nothing else.
   */
  lemma ScanAgreesWithDisk(before: Rows, disk: Disk, rows: Rows)
    requires Distinct(before) && ScanPost(before, disk, rows)
    ensures AgreesWithDisk(rows, disk)
    ensures Distinct(rows) && NewestFirst(rows)
    ensures Paths(rows) == Paths(before) + Clips(disk) && |rows| == |Paths(before) + Clips(disk)|
    ensures AllSurvive(before, rows) && AllLearn(before, disk, rows)
    ensures forall e | e in rows && e.path !in Paths(before) ::
              && NewRow(before, disk, e) && !e.isProtected && !e.missing
              && e.createdAt == disk[e.path].created
              && e.durationMs == Mp4Box.FileDuration(disk[e.path].bytes)
  {
    RowsAfterScan(before, disk, rows);
    PathsAfterScan(before, disk, rows);
    OldRowsAfterScan(before, disk, rows);
    NewRowsAfterScan(before, disk, rows);
    OneRowPerPath(rows);
    SortedIsNewestFirst(rows);
    hide NewestFirst, AgreesWithDisk, AllSurvive, AllLearn, Distinct, Sorted, Paths, Clips, NewRow;
  }

  lemma RowsAfterScan(before: Rows, disk: Disk, rows: Rows)
    requires ScanPost(before, disk, rows)
    ensures AgreesWithDisk(rows, disk)
  {
    hide IsSupportedClip, Mp4Box.FileDuration, RowLe, Sorted, Distinct, Paths;
    forall e | e in rows ensures if e.missing then !Present(disk, e.path) else ShowsFile(e, disk) {
      if o :| o in before && e == Reconciled(o, disk) { ReconciledKeeps(o, disk); }
    }
  }

  lemma NewRowsAfterScan(before: Rows, disk: Disk, rows: Rows)
    requires ScanPost(before, disk, rows)
    ensures forall e | e in rows && e.path !in Paths(before) ::
              && NewRow(before, disk, e) && !e.isProtected && !e.missing
              && e.createdAt == disk[e.path].created
              && e.durationMs == Mp4Box.FileDuration(disk[e.path].bytes)
  {
    hide SafeParent, IsSupportedClip, Mp4Box.FileDuration, RowLe, Sorted, Distinct;
    forall e | e in rows && e.path !in Paths(before) ensures NewRow(before, disk, e) {
      if o :| o in before && e == Reconciled(o, disk) { ReconciledKeeps(o, disk); }
    }
  }

  lemma PathsAfterScan(before: Rows, disk: Disk, rows: Rows)
    requires ScanPost(before, disk, rows)
    ensures Paths(rows) == Paths(before) + Clips(disk)
  {
    NewRowsAfterScan(before, disk, rows);
    forall o | o in before ensures o.path in Paths(rows) {
      ReconciledKeeps(o, disk);
    }
    hide Reconciled, Distinct, Sorted, Discoverable;
    forall p | p in Clips(disk) ensures p in Paths(rows) {
      if p !in Paths(before) {
        assert Discovered(p, disk) in rows && Discovered(p, disk).path == p;
      }
    }
  }

  lemma OldRowsAfterScan(before: Rows, disk: Disk, rows: Rows)
    requires ScanPost(before, disk, rows)
    ensures AllSurvive(before, rows) && AllLearn(before, disk, rows)
  {
    hide Sorted;
    forall o, e | o in before && e in rows && e.path == o.path ensures Survives(o, e) && LearnsFrom(o, e, disk) {
      ReconciledKeeps(o, disk);
      ReconciledLearns(o, disk);
      hide Reconciled;
      SamePathSameRow(rows, e, Reconciled(o, disk));
    }
  }

  lemma SubsetBag(a: Rows, b: Rows)
    requires Distinct(a) && forall e | e in a :: e in b
    ensures multiset(a) <= multiset(b)
  {
    forall e | e in multiset(a) ensures multiset(a)[e] <= multiset(b)[e] {
      OnceInBag(a, e);
      assert e in multiset(b);
    }
  }

  /** Old rows and disk fix the result: the order of the directory listings does not show. */
  lemma ScanIsDeterministic(before: Rows, disk: Disk, a: Rows, b: Rows)
    requires Distinct(before) && ScanPost(before, disk, a) && ScanPost(before, disk, b)
    ensures a == b
  {
    hide Reconciled, Discovered, Discoverable, RowLe, Sorted;
    SubsetBag(a, b);
    SubsetBag(b, a);
    NoTiedRows(a);
    SortedUnique(RowLe, a, b);
  }

  /** A second scan of an unchanged disk changes nothing. */
  lemma RescanIsIdentity(before: Rows, disk: Disk, rows: Rows)
    requires Distinct(before) && ScanPost(before, disk, rows)
    ensures ScanPost(rows, disk, rows)
  {
    hide SafeParent, IsSupportedClip, Duration, RowLe, Sorted, Distinct;
    PathsAfterScan(before, disk, rows);
    forall e | e in rows ensures Reconciled(e, disk) == e {
      if o :| o in before && e == Reconciled(o, disk) {
        ReconciledTwice(o, disk);
      } else {
        DiscoveredIsReconciled(e.path, disk);
      }
    }
    hide Reconciled, Discovered;
    assert forall p | p in disk && Discoverable(disk, p) :: p in Clips(disk);
  }

  lemma ReconciledTwice(e: ClipEntry, disk: Disk)
    ensures Reconciled(Reconciled(e, disk), disk) == Reconciled(e, disk)
  {
    hide SafeParent, Duration;
  }

  lemma DiscoveredIsReconciled(p: Path, disk: Disk)
    requires Present(disk, p)
    ensures Reconciled(Discovered(p, disk), disk) == Discovered(p, disk)
  {
    hide SafeParent, Duration;
  }

  // ---------------------------------------------------------------------------
  // Scans that stop half way.

  /** Some rows reconciled, the others as they were. */
  lemma PartlyReconciled(before: Rows, disk: Disk, rows: Rows)
    requires Distinct(before) && |rows| == |before|
    requires forall i | 0 <= i < |rows| :: rows[i] == before[i] || rows[i] == Reconciled(before[i], disk)
    ensures HalfScanned(before, disk, rows)
  {
    PartlyDistinct(before, disk, rows);
    hide Reconciled, NewRow, Distinct;
    forall e | e in before ensures e in rows || Reconciled(e, disk) in rows {
      var i :| 0 <= i < |before| && before[i] == e;
      assert rows[i] in rows;
    }
    forall e | e in rows ensures exists o | o in before :: e == o || e == Reconciled(o, disk) {
      var i :| 0 <= i < |rows| && rows[i] == e;
      assert before[i] in before;
    }
  }

  lemma PartlyDistinct(before: Rows, disk: Disk, rows: Rows)
    requires Distinct(before) && |rows| == |before|
    requires forall i | 0 <= i < |rows| :: rows[i] == before[i] || rows[i] == Reconciled(before[i], disk)
    ensures Distinct(rows)
  {
    forall i | 0 <= i < |rows| ensures rows[i].path == before[i].path { ReconciledKeeps(before[i], disk); }
    hide Reconciled;
  }

  lemma WalkingIsHalfScanned(before: Rows, disk: Disk, rows: Rows, seen: set<Path>)
    requires Walking(before, disk, rows, seen)
    ensures HalfScanned(before, disk, rows)
  {
    hide Reconciled, NewRow, Distinct;
    forall e | e in before ensures Reconciled(e, disk) in rows {
      var i :| 0 <= i < |before| && before[i] == e;
      assert rows[i] in rows;
    }
    forall e | e in rows ensures (exists o | o in before :: e == Reconciled(o, disk)) || NewRow(before, disk, e) {
      var i :| 0 <= i < |rows| && rows[i] == e;
      assert i < |before| ==> before[i] in before;
    }
  }

  lemma ScannedIsHalfScanned(before: Rows, disk: Disk, rows: Rows)
    requires ScanPost(before, disk, rows)
    ensures HalfScanned(before, disk, rows)
  {
    hide Reconciled, NewRow, Distinct, Discoverable, Discovered;
  }

  /** No path is lost half way, and every row that was there keeps its flag and its recorded age. */
  lemma HalfScannedKeeps(before: Rows, disk: Disk, rows: Rows)
    requires Distinct(before) && HalfScanned(before, disk, rows)
    ensures Distinct(rows) && Paths(before) <= Paths(rows)
    ensures forall o, e | o in before && e in rows && e.path == o.path ::
              e.isProtected == o.isProtected && (o.createdAt.Some? ==> e.createdAt == o.createdAt)
  {
    forall o | o in before
      ensures Reconciled(o, disk).path == o.path && Reconciled(o, disk).isProtected == o.isProtected
      ensures o.createdAt.Some? ==> Reconciled(o, disk).createdAt == o.createdAt
    {
      ReconciledKeeps(o, disk);
    }
    hide Reconciled, NewRow;
    forall o, e | o in before && e in rows && e.path == o.path ensures e == o || e == Reconciled(o, disk) {
      if o in rows { SamePathSameRow(rows, e, o); } else { SamePathSameRow(rows, e, Reconciled(o, disk)); }
    }
  }

  // ---------------------------------------------------------------------------
  // How a scan gets there: old rows first, then rows for new files in listing order.

  /** Add a listed file, once. */
  function Added(rows: Rows, seen: set<Path>, p: Path, file: Node, game: Option<string>): (Rows, set<Path>)
    requires file.File?
  {
    if p in seen then (rows, seen)
    else
      var i := RowAt(rows, p);
      (if i < |rows| then rows[i := Refreshed(rows[i].(gameName := game), file)]
       else rows + [EntryFromFile(p, file, game)],
       seen + {p})
  }

  /** The state in the middle of a scan's walk over the directories. */
  ghost predicate Walking(before: Rows, disk: Disk, rows: Rows, seen: set<Path>) {
    && |before| <= |rows|
    && Distinct(rows)
    && (forall i | 0 <= i < |before| :: rows[i] == Reconciled(before[i], disk))
    && (forall i | |before| <= i < |rows| :: NewRow(before, disk, rows[i]))
    && forall p | Present(disk, p) :: p in seen <==> p in Paths(rows)
  }

  lemma AddKeepsWalking(before: Rows, disk: Disk, rows: Rows, seen: set<Path>, p: Path)
    requires Walking(before, disk, rows, seen) && Discoverable(disk, p)
    ensures var (r, s) := Added(rows, seen, p, disk[p], GameNameFor(p));
            Walking(before, disk, r, s) && p in s && seen <= s
  {
    hide SafeParent, IsSupportedClip, Reconciled, EntryFromFile, GameNameFor;
    assert p in seen <==> p in Paths(rows);
    var i := RowAt(rows, p);
    if p !in seen {
      RowAtFinds(rows, p);
      var r := rows + [EntryFromFile(p, disk[p], GameNameFor(p))];
      assert r[|r| - 1].path == p by { NewRowPath(p, disk); }
      assert Paths(r) == Paths(rows) + {p};
      assert p !in Paths(before) by { OldPathsStay(before, disk, rows, p); }
    }
  }

  lemma NewRowPath(p: Path, disk: Disk)
    requires p in disk && disk[p].File?
    ensures EntryFromFile(p, disk[p], GameNameFor(p)).path == p
  {
  }

  lemma OldPathsStay(before: Rows, disk: Disk, rows: Rows, p: Path)
    requires |before| <= |rows| && forall i | 0 <= i < |before| :: rows[i] == Reconciled(before[i], disk)
    ensures p in Paths(before) ==> p in Paths(rows)
  {
    if p in Paths(before) {
      var i :| 0 <= i < |before| && before[i].path == p;
      assert rows[i] in rows;
    }
  }

  /** A finished walk, sorted, is the result of the scan. */
  lemma WalkedAndSorted(before: Rows, disk: Disk, rows: Rows, seen: set<Path>)
    requires Walking(before, disk, rows, seen)
    requires forall p | Discoverable(disk, p) :: p in seen
    ensures ScanPost(before, disk, StableSort(RowLe, rows))
  {
    hide Reconciled, Discoverable, Discovered, RowLe, Sorted, Walking;
    var sorted := StableSort(RowLe, rows);
    RowLeIsOrder();
    StableSortSorts(RowLe, rows);
    assert multiset(sorted) == multiset(rows);
    WalkIsComplete(before, disk, rows, seen);
    DistinctRearranged(rows, sorted);
    forall e ensures e in sorted <==> e in rows {
      assert e in multiset(sorted) <==> e in multiset(rows);
    }
  }

  lemma WalkIsComplete(before: Rows, disk: Disk, rows: Rows, seen: set<Path>)
    requires Walking(before, disk, rows, seen)
    requires forall p | Discoverable(disk, p) :: p in seen
    ensures Distinct(rows)
    ensures forall e | e in before :: Reconciled(e, disk) in rows
    ensures forall p | p in disk && Discoverable(disk, p) && p !in Paths(before) :: Discovered(p, disk) in rows
    ensures forall e | e in rows :: (exists o | o in before :: e == Reconciled(o, disk)) || NewRow(before, disk, e)
  {
    hide SafeParent, IsSupportedClip, Discovered;
    forall e | e in before ensures Reconciled(e, disk) in rows {
      var i :| 0 <= i < |before| && before[i] == e;
      assert rows[i] == Reconciled(e, disk);
    }
    forall i | 0 <= i < |before| ensures rows[i].path in Paths(before) {
      assert before[i] in before && rows[i].path == before[i].path;
    }
    forall p | p in disk && Discoverable(disk, p) && p !in Paths(before) ensures Discovered(p, disk) in rows {
      assert p in Paths(rows);
      var i :| 0 <= i < |rows| && rows[i].path == p;
    }
    forall e | e in rows ensures (exists o | o in before :: e == Reconciled(o, disk)) || NewRow(before, disk, e) {
      var i :| 0 <= i < |rows| && rows[i] == e;
      if i < |before| { assert before[i] in before; }
    }
  }
}
