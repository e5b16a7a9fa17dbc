/** Deleting and renaming one clip: a file operation, a catalog write, and a rollback when the write fails. */
module LibraryActions {
  import opened Common
  import opened Text
  import opened ClipIndex
  import opened Names

  /** The index in memory, the files, and the index as last written to the catalog. */
  datatype State = State(rows: Rows, disk: Disk, catalog: Rows)

  const STAGED_MARK: string := ".silk-delete"

  /** Move a file; what was at the target is gone. */
  function Move(disk: Disk, source: Path, target: Path): Disk
    requires source in disk
  {
    (disk - {source})[target := disk[source]]
  }

  function WithoutRow(rows: Rows, i: nat): Rows
    requires i < |rows|
  {
    rows[..i] + rows[i + 1..]
  }

  /** Whether a look at the path reports something there. */
  predicate Occupied(disk: Disk, env: Env, p: Path) {
    p in disk && !env.statFails(p)
  }

  /** The name of `k`-th choice for setting a clip aside before it is deleted. */
  function StagedName(p: Path, k: nat): Path
    requires p != []
  {
    p[..|p| - 1] + ["." + FileName(p) + STAGED_MARK + if k == 0 then "" else "-" + Decimal(k)]
  }

  lemma StagedNamesDiffer(p: Path, m: nat, n: nat)
    requires p != [] && m < n
    ensures StagedName(p, m) != StagedName(p, n)
  {
    var head := "." + FileName(p) + STAGED_MARK;
    var a, b := FileName(StagedName(p, m)), FileName(StagedName(p, n));
    assert b[|head| + 1..] == Decimal(n);
    if m > 0 {
      assert a[|head| + 1..] == Decimal(m);
      if a == b { DecimalInjective(m, n); }
    }
  }

  /** The first `n` choices can be occupied only if the disk holds `n` files. */
  lemma OccupiedChoicesBounded(disk: Disk, p: Path, n: nat)
    requires p != [] && forall k | 0 <= k < n :: StagedName(p, k) in disk
    ensures n <= |disk|
  {
    hide StagedName;
    var f := (k: nat) => StagedName(p, k);
    forall i, j | 0 <= i < j < n ensures f(i) != f(j) {
      StagedNamesDiffer(p, i, j);
    }
    DistinctValuesBounded(f, n, disk.Keys);
    assert |disk.Keys| == |disk|;
  }

  /** The first free choice from `k` on. */
  function FreeChoice(disk: Disk, env: Env, p: Path, k: nat): (n: nat)
    requires p != [] && forall i | 0 <= i < k :: StagedName(p, i) in disk
    ensures !Occupied(disk, env, StagedName(p, n))
    ensures n >= k && forall i | k <= i < n :: Occupied(disk, env, StagedName(p, i))
    decreases |disk| + 1 - k
  {
    if Occupied(disk, env, StagedName(p, k)) then
      OccupiedChoicesBounded(disk, p, k + 1);
      FreeChoice(disk, env, p, k + 1)
    else k
  }

  function StagedPath(disk: Disk, env: Env, p: Path): Path
    requires p != []
  {
    StagedName(p, FreeChoice(disk, env, p, 0))
  }

  lemma FreeChoiceIs(disk: Disk, env: Env, p: Path, k: nat)
    requires p != [] && !Occupied(disk, env, StagedName(p, k))
    requires forall i | 0 <= i < k :: Occupied(disk, env, StagedName(p, i))
    ensures StagedPath(disk, env, p) == StagedName(p, k)
  {
    hide StagedName;
    var n := FreeChoice(disk, env, p, 0);
    assert n <= k && k <= n;
  }

  /** The row's file as an action may use it: regular, below a safe parent. */
  function Checked(e: ClipEntry, disk: Disk, env: Env): Result<Path, LibraryError> {
    var p := e.path;
    if ClipParent(p).None? then Err(InvalidPath)
    else if e.missing then Err(MissingClip)
    else if |p| == 2 && env.statFails(p[..1]) then Err(Io(p[..1]))
    else if |p| == 2 && p[..1] !in disk then Err(MissingClip)
    else if |p| == 2 && !disk[p[..1]].Directory? then Err(InvalidPath)
    else if env.statFails(p) then Err(Io(p))
    else if p !in disk then Err(MissingClip)
    else if !disk[p].File? then Err(InvalidPath)
    else if env.canonicalFails(p) then Err(Io(p))
    else Ok(p)
  }

  function FindEntry(rows: Rows, p: Path): (r: Result<nat, LibraryError>)
    ensures r.Ok? ==> r.value < |rows| && rows[r.value].path == p && 1 <= |p| <= 2
  {
    if ClipParent(p).None? then Err(InvalidPath)
    else if RowAt(rows, p) == |rows| then Err(NotIndexed)
    else Ok(RowAt(rows, p))
  }

  predicate CannotMove(disk: Disk, env: Env, source: Path, target: Path) {
    env.renameFails(source) || (target in disk && disk[target].Directory?)
  }

  // ---------------------------------------------------------------------------
  // Delete.

  /** A row without a file: it is dropped, and nothing else is done. */
  function DropRow(s: State, i: nat, env: Env): (State, Result<(), LibraryError>)
    requires i < |s.rows|
  {
    var rows := WithoutRow(s.rows, i);
    if env.saveFails(s.rows[i].path) then (s.(rows := rows), Err(CatalogWrite))
    else (s.(rows := rows, catalog := rows), Ok(()))
  }

  /** A row with a file: set the file aside, write the catalog, then remove the file. */
  function DeleteFile(s: State, i: nat, env: Env): (State, Result<(), LibraryError>)
    requires i < |s.rows| && s.rows[i].path != [] && s.rows[i].path in s.disk
  {
    var p := s.rows[i].path;
    var staged := StagedPath(s.disk, env, p);
    var rows := WithoutRow(s.rows, i);
    if CannotMove(s.disk, env, p, staged) then (s, Err(Io(p)))
    else
      var moved := Move(s.disk, p, staged);
      if env.saveFails(p) then
        if env.rollbackFails(p) then (s.(disk := moved), Err(RollbackFailed))
        else (s.(disk := Move(moved, staged, p)), Err(CatalogWrite))
      else if env.removeFails(p) then (State(rows, moved, rows), Err(Io(staged)))
      else (State(rows, moved - {staged}, rows), Ok(()))
  }

  function Deleted(s: State, p: Path, env: Env): (State, Result<(), LibraryError>) {
    var found := FindEntry(s.rows, p);
    if found.Err? then (s, Err(found.error))
    else
      var i := found.value;
      var checked := Checked(s.rows[i], s.disk, env);
      if checked == Err(MissingClip) then DropRow(s, i, env)
      else if checked.Err? then (s, Err(checked.error))
      else DeleteFile(s, i, env)
  }

  lemma StagedApart(disk: Disk, env: Env, p: Path)
    requires p != []
    ensures StagedPath(disk, env, p) != p
    ensures StagedPath(disk, env, p)[..|p| - 1] == p[..|p| - 1] && |StagedPath(disk, env, p)| == |p|
    ensures StagedPath(disk, env, p) in disk ==> env.statFails(StagedPath(disk, env, p))
  {
    var n := FreeChoice(disk, env, p, 0);
    assert |FileName(StagedName(p, n))| > |FileName(p)|;
  }

  /** What a successful delete leaves. */
  lemma DeleteOutcome(s: State, p: Path, env: Env)
    requires Deleted(s, p, env).1.Ok?
    ensures p in Paths(s.rows) && p != []
    ensures var t, i := Deleted(s, p, env).0, RowAt(s.rows, p);
            var staged := StagedPath(s.disk, env, p);
            && t.rows == t.catalog == WithoutRow(s.rows, i)
            && (staged in s.disk ==> env.statFails(staged))
            && if Checked(s.rows[i], s.disk, env).Ok? then p in s.disk && t.disk == s.disk - {p, staged}
               else t.disk == s.disk
  {
    RowAtFinds(s.rows, p);
    StagedApart(s.disk, env, p);
    var i := RowAt(s.rows, p);
    var checked := Checked(s.rows[i], s.disk, env);
    assert FindEntry(s.rows, p).value == i;
    hide StagedPath, RowAt, WithoutRow, Paths, FindEntry, CannotMove;
    if checked.Ok? {
      CheckedIsFile(s.rows[i], s.disk, env);
      MoveAndRemove(s.disk, p, StagedPath(s.disk, env, p));
    }
    hide Checked;
    assert Deleted(s, p, env) == if checked.Ok? then DeleteFile(s, i, env) else DropRow(s, i, env);
    hide Deleted, Move;
  }

  lemma {:induction false} RemovingKeepsOthers(rows: Rows, i: nat)
    requires Distinct(rows) && i < |rows|
    ensures WithoutRow(rows, i) == Keep(rows, {rows[i].path})
  {
    var gone := {rows[i].path};
    if i == 0 {
      forall e | e in rows[1..] ensures e.path !in gone {
        var k :| 0 <= k < |rows[1..]| && rows[1..][k] == e;
        assert rows[k + 1] == e;
      }
      KeepAll(rows[1..], gone);
    } else {
      RemovingKeepsOthers(rows[1..], i - 1);
      assert rows[0].path != rows[i].path;
      assert WithoutRow(rows, i) == [rows[0]] + WithoutRow(rows[1..], i - 1);
    }
  }

  lemma DeleteRemovesRow(s: State, p: Path, env: Env)
    requires Distinct(s.rows) && Deleted(s, p, env).1.Ok?
    ensures var t := Deleted(s, p, env).0;
            && t.rows == t.catalog == Keep(s.rows, {p})
            && p in Paths(s.rows) && Paths(t.rows) == Paths(s.rows) - {p}
            && |t.rows| + 1 == |s.rows|
  {
    DeleteOutcome(s, p, env);
    RowAtFinds(s.rows, p);
    RemovingKeepsOthers(s.rows, RowAt(s.rows, p));
    KeepPaths(s.rows, {p});
    hide Deleted, RowAt, StagedPath, Distinct, Checked, Keep, Paths;
  }

  lemma DeleteRemovesFile(s: State, p: Path, env: Env)
    requires Deleted(s, p, env).1.Ok?
    ensures p in Paths(s.rows) && p != []
    ensures var d, staged := Deleted(s, p, env).0.disk, StagedPath(s.disk, env, p);
            && (forall q | q in d :: q in s.disk && d[q] == s.disk[q])
            && (forall q | q in s.disk && q != p && q != staged :: q in d)
            && (staged in s.disk ==> env.statFails(staged))
            && if Checked(s.rows[RowAt(s.rows, p)], s.disk, env).Ok? then
                 && p in s.disk && p !in d
                 && ((forall q | q in s.disk && q != p :: q in d) <==> staged !in s.disk)
               else d == s.disk
  {
    DeleteOutcome(s, p, env);
    RowAtFinds(s.rows, p);
    StagedApart(s.disk, env, p);
    hide Deleted, RowAt, StagedPath, WithoutRow, Checked, Paths;
  }

  /**
   * A delete that succeeds removes the row of that path, keeps every other row in its order, and
   * writes exactly the remaining index. The row's file is gone; no other file is, if and only if
   * the staged name was free, which it was unless it could not be looked at.
   */
  lemma DeleteRemovesOne(s: State, p: Path, env: Env)
    requires Distinct(s.rows) && Deleted(s, p, env).1.Ok?
    ensures var t := Deleted(s, p, env).0;
            && t.rows == t.catalog == Keep(s.rows, {p})
            && Paths(t.rows) == Paths(s.rows) - {p}
            && |t.rows| + 1 == |s.rows|
    ensures p in Paths(s.rows) && p != []
    ensures var d, staged := Deleted(s, p, env).0.disk, StagedPath(s.disk, env, p);
            && (forall q | q in d :: q in s.disk && d[q] == s.disk[q])
            && (forall q | q in s.disk && q != p && q != staged :: q in d)
            && (staged in s.disk ==> env.statFails(staged))
            && if Checked(s.rows[RowAt(s.rows, p)], s.disk, env).Ok? then
                 && p in s.disk && p !in d
                 && ((forall q | q in s.disk && q != p :: q in d) <==> staged !in s.disk)
               else d == s.disk
  {
    hide *;
    DeleteRemovesRow(s, p, env);
    DeleteRemovesFile(s, p, env);
  }

  lemma KeepPaths(rows: Rows, gone: set<Path>)
    ensures Paths(Keep(rows, gone)) == Paths(rows) - gone
  {
    forall e ensures e in Keep(rows, gone) <==> e in rows && e.path !in gone {
      KeepMembers(rows, gone, e);
    }
  }

  lemma MoveAndRemove(disk: Disk, a: Path, b: Path)
    requires a in disk && a != b
    ensures Move(disk, a, b) - {b} == disk - {a, b}
  {
  }

  /**
   * A failed catalog write, with the file moved back: the delete leaves everything as it was if
   * and only if the row had a file to set aside, and setting it aside overwrote nothing. A row
   * whose file is missing is dropped from memory although the catalog still holds it.
   */
  lemma DeleteIsAtomicWhen(s: State, p: Path, env: Env)
    requires Deleted(s, p, env).1 == Err(CatalogWrite)
    ensures var e := s.rows[RowAt(s.rows, p)];
            && (Deleted(s, p, env).0 == s <==>
                  Checked(e, s.disk, env).Ok? && StagedPath(s.disk, env, p) !in s.disk)
            && (Checked(e, s.disk, env).Ok? ==> !env.rollbackFails(p))
    ensures Deleted(s, p, env).0.catalog == s.catalog && env.saveFails(p)
  {
    StagedApart(s.disk, env, p);
    var i := RowAt(s.rows, p);
    var staged := StagedPath(s.disk, env, p);
    hide StagedPath, RowAt, Checked;
    if Checked(s.rows[i], s.disk, env).Ok? {
      assert p in s.disk by { CheckedIsFile(s.rows[i], s.disk, env); }
      MoveThereAndBack(s.disk, p, staged);
    } else {
      assert |WithoutRow(s.rows, i)| < |s.rows|;
    }
  }

  lemma CheckedIsFile(e: ClipEntry, disk: Disk, env: Env)
    requires Checked(e, disk, env).Ok?
    ensures !e.missing && 1 <= |e.path| <= 2 && e.path in disk && disk[e.path].File?
    ensures Checked(e, disk, env).value == e.path && !env.statFails(e.path)
  {
  }

  lemma MoveThereAndBack(disk: Disk, a: Path, b: Path)
    requires a in disk && a != b
    ensures Move(Move(disk, a, b), b, a) == disk <==> b !in disk
  {
    var back := Move(Move(disk, a, b), b, a);
    assert b !in back;
    if b !in disk {
      assert back.Keys == disk.Keys;
    }
  }

  /** Every other failed delete leaves everything as it was, except for two that leave the file at the staged name. */
  lemma DeleteFailures(s: State, p: Path, env: Env)
    requires Deleted(s, p, env).1.Err?
    ensures var (t, r) := Deleted(s, p, env);
            var staged := if p == [] then [] else StagedPath(s.disk, env, p);
            || r.error == CatalogWrite
            || t == s
            // The row stays, its file waits at the staged name.
            || (r.error == RollbackFailed && env.rollbackFails(p)
                && p in s.disk && t == s.(disk := Move(s.disk, p, staged)))
            // The row is gone for good, its file waits at the staged name.
            || (r.error == Io(staged) && env.removeFails(p)
                && p in s.disk && t.disk == Move(s.disk, p, staged)
                && t.rows == t.catalog == WithoutRow(s.rows, RowAt(s.rows, p)))
  {
    hide StagedPath, RowAt, WithoutRow, Move;
  }

  /** Deleting a missing row while the catalog cannot be written: memory and catalog part. */
  lemma MissingRowIsDroppedAnyway(env: Env)
    requires env.saveFails(["a.mp4"])
    ensures var e := ClipEntry(["a.mp4"], "a.mp4", None, None, None, 0, true, false);
            var s := State([e], map[], [e]);
            Deleted(s, ["a.mp4"], env) == (State([], map[], [e]), Err(CatalogWrite))
  {
    var e := ClipEntry(["a.mp4"], "a.mp4", None, None, None, 0, true, false);
    assert RowAt([e], ["a.mp4"]) == 0;
    assert WithoutRow([e], 0) == [];
  }

  // ---------------------------------------------------------------------------
  // Rename.

  /** The path a clip gets under a new name: same directory, extension kept or added. */
  function RenamedPath(p: Path, requested: string): (r: Result<Path, LibraryError>)
    requires p != []
    ensures r.Ok? ==> |r.value| == |p| && r.value[..|p| - 1] == p[..|p| - 1]
    ensures r.Err? ==> r.error == InvalidName || r.error == InvalidPath
  {
    var name := Trim(requested);
    if ValidateName(name).Err? then Err(InvalidName)
    else
      var was, wanted := Extension(FileName(p)), Extension(name);
      if wanted.Some? && (was.None? || Lower(was.value) != Lower(wanted.value)) then Err(InvalidName)
      else
        var fileName := if wanted.None? && was.Some? then name + "." + was.value else name;
        var renamed := p[..|p| - 1] + [fileName];
        if ClipParent(renamed).None? then Err(InvalidPath) else Ok(renamed)
  }

  function RenameFile(s: State, i: nat, target: Path, env: Env): (State, Result<ClipEntry, LibraryError>)
    requires i < |s.rows| && s.rows[i].path in s.disk
  {
    var p := s.rows[i].path;
    var row := s.rows[i].(path := target, name := FileName(target), missing := false);
    var moved := Move(s.disk, p, target);
    if CannotMove(s.disk, env, p, target) then (s, Err(Io(p)))
    else if env.saveFails(p) then
      if env.rollbackFails(p) then (s.(disk := moved), Err(RollbackFailed))
      else (s.(disk := Move(moved, target, p)), Err(CatalogWrite))
    else (State(s.rows[i := row], moved, s.rows[i := row]), Ok(row))
  }

  function Renamed(s: State, p: Path, requested: string, env: Env): (State, Result<ClipEntry, LibraryError>) {
    var found := FindEntry(s.rows, p);
    if found.Err? then (s, Err(found.error))
    else
      var i := found.value;
      var checked := Checked(s.rows[i], s.disk, env);
      if checked.Err? then (s, Err(checked.error))
      else
        var target := RenamedPath(p, requested);
        if target.Err? then (s, Err(target.error))
        else if target.value == p then (s, Ok(s.rows[i]))
        else if Occupied(s.disk, env, target.value) || target.value in Paths(s.rows) then (s, Err(AlreadyExists))
        else RenameFile(s, i, target.value, env)
  }

  /** What a rename that moves a file needs, and does. */
  lemma RenameSteps(s: State, p: Path, requested: string, env: Env)
    requires FindEntry(s.rows, p).Ok? && Checked(s.rows[RowAt(s.rows, p)], s.disk, env).Ok?
    ensures p in s.disk && p in Paths(s.rows) && RowAt(s.rows, p) < |s.rows| && s.rows[RowAt(s.rows, p)].path == p
    ensures !s.rows[RowAt(s.rows, p)].missing
  {
    RowAtFinds(s.rows, p);
    CheckedIsFile(s.rows[RowAt(s.rows, p)], s.disk, env);
  }

  /** A rename that succeeds keeps the name, or went on to move the file to a free path. */
  lemma RenameBranches(s: State, p: Path, requested: string, env: Env)
    requires Renamed(s, p, requested, env).1.Ok?
    ensures var i := RowAt(s.rows, p);
            && i < |s.rows| && p in s.disk && s.rows[i].path == p && !s.rows[i].missing
            && RenamedPath(p, requested).Ok?
            && var q := RenamedPath(p, requested).value;
               if q == p then Renamed(s, p, requested, env) == (s, Ok(s.rows[i]))
               else
                 && q !in Paths(s.rows) && !Occupied(s.disk, env, q)
                 && Renamed(s, p, requested, env) == RenameFile(s, i, q, env)
  {
    RenameSteps(s, p, requested, env);
    assert FindEntry(s.rows, p).value == RowAt(s.rows, p);
    hide RenamedPath, RowAt, Checked, Move, Paths, FindEntry, RenameFile, Occupied;
  }

  lemma RenameFileOutcome(s: State, i: nat, q: Path, env: Env)
    requires i < |s.rows| && s.rows[i].path in s.disk && RenameFile(s, i, q, env).1.Ok?
    ensures var (t, r) := RenameFile(s, i, q, env);
            && r.value.path == q
            && r.value == s.rows[i].(path := q, name := FileName(q), missing := false)
            && t == State(s.rows[i := r.value], Move(s.disk, s.rows[i].path, q), s.rows[i := r.value])
  {
    hide Move, CannotMove;
  }

  lemma FreeUnlessUnreadable(disk: Disk, env: Env, q: Path)
    requires !Occupied(disk, env, q)
    ensures q in disk ==> env.statFails(q)
  {
  }

  /**
   * A rename that succeeds changes the path and name of one row and moves its file there; every
   * other row and file stays, except a file at the new path that could not be looked at.
   */
  lemma RenameMovesOne(s: State, p: Path, requested: string, env: Env)
    requires Renamed(s, p, requested, env).1.Ok?
    ensures var (t, r) := Renamed(s, p, requested, env);
            var i, q := RowAt(s.rows, p), r.value.path;
            && i < |s.rows| && p in s.disk
            && RenamedPath(p, requested) == Ok(q)
            && if q == p then t == s && r.value == s.rows[i]
               else
                 && q !in Paths(s.rows)
                 && (q in s.disk ==> env.statFails(q))
                 && r.value == s.rows[i].(path := q, name := FileName(q))
                 && t == State(s.rows[i := r.value], Move(s.disk, p, q), s.rows[i := r.value])
  {
    RenameBranches(s, p, requested, env);
    hide *;
    var i, q := RowAt(s.rows, p), RenamedPath(p, requested).value;
    if q != p {
      RenameFileOutcome(s, i, q, env);
      FreeUnlessUnreadable(s.disk, env, q);
    }
  }

  lemma RenameKeepsDistinct(s: State, p: Path, requested: string, env: Env)
    requires Distinct(s.rows)
    ensures Distinct(Renamed(s, p, requested, env).0.rows)
  {
    hide RenamedPath, RowAt, Checked;
    var (t, r) := Renamed(s, p, requested, env);
    if r.Ok? && t != s {
      RenameMovesOne(s, p, requested, env);
      forall i | 0 <= i < |s.rows| ensures s.rows[i].path != r.value.path {
        assert s.rows[i] in s.rows;
      }
    }
  }

  /**
   * A failed rename leaves everything as it was, if and only if moving the file there and back
   * overwrote nothing, or the file was never moved; only a failed rollback leaves it moved.
   */
  lemma RenameIsAtomicWhen(s: State, p: Path, requested: string, env: Env)
    requires Renamed(s, p, requested, env).1.Err?
    ensures var (t, r) := Renamed(s, p, requested, env);
            && t.rows == s.rows && t.catalog == s.catalog
            && (r.error != CatalogWrite && r.error != RollbackFailed ==> t == s)
            && (r.error == CatalogWrite ==>
                  env.saveFails(p) && !env.rollbackFails(p) && (t == s <==> RenamedPath(p, requested).value !in s.disk))
            && (r.error == RollbackFailed ==>
                  && env.saveFails(p) && env.rollbackFails(p)
                  && p in s.disk && t.disk == Move(s.disk, p, RenamedPath(p, requested).value))
  {
    var (t, r) := Renamed(s, p, requested, env);
    hide RenamedPath, RowAt;
    assert r.error == CatalogWrite || r.error == RollbackFailed ==> RenamedPath(p, requested).Ok?;
    if r.error == CatalogWrite || r.error == RollbackFailed {
      CheckedIsFile(s.rows[RowAt(s.rows, p)], s.disk, env);
      MoveThereAndBack(s.disk, p, RenamedPath(p, requested).value);
    }
  }

  // ---------------------------------------------------------------------------
  // Protection.

  /** Set or clear the protection of a clip: the flag in memory, then the catalog, with no rollback. */
  function ProtectionSet(s: State, p: Path, flag: bool, env: Env): (State, Result<ClipEntry, LibraryError>) {
    var found := FindEntry(s.rows, p);
    if found.Err? then (s, Err(found.error))
    else
      var i := found.value;
      var checked := Checked(s.rows[i], s.disk, env);
      if !s.rows[i].missing && checked.Err? then (s, Err(checked.error))
      else
        var rows := s.rows[i := s.rows[i].(isProtected := flag)];
        if env.saveFails(p) then (s.(rows := rows), Err(CatalogWrite))
        else (State(rows, s.disk, rows), Ok(rows[i]))
  }

  /**
   * A failed protection request leaves everything as it was, if and only if the catalog was not what
   * failed or the flag was so already; after a failed catalog write it is in memory only.
   */
  lemma ProtectionIsAtomicWhen(s: State, p: Path, flag: bool, env: Env)
    requires ProtectionSet(s, p, flag, env).1.Err?
    ensures var (t, r) := ProtectionSet(s, p, flag, env);
            var i := RowAt(s.rows, p);
            && (r.error == CatalogWrite ==>
                  i < |s.rows| && t == s.(rows := s.rows[i := s.rows[i].(isProtected := flag)]))
            && (t == s <==> (r.error == CatalogWrite ==> s.rows[i].isProtected == flag))
  {
    hide RowAt;
    var i := RowAt(s.rows, p);
    if i < |s.rows| {
      assert s.rows[i := s.rows[i].(isProtected := flag)][i].isProtected == flag;
      if s.rows[i].isProtected == flag { assert s.rows[i := s.rows[i].(isProtected := flag)] == s.rows; }
    }
  }
}
