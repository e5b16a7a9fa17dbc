/** What deletes, renames and the quota leave alone, however they end. */
module LibraryFrames {
  import opened Common
  import opened ClipIndex
  import opened LibraryActions
  import opened LibraryQuota
  import opened LibraryCleanup

  /** The rows and saved rows that an operation on the paths `touched` keeps, however it ends. */
  ghost predicate KeepsOtherRows(s: State, t: State, touched: set<Path>) {
    && (Distinct(s.rows) ==> Distinct(t.rows))
    && (forall e | e in s.rows && e.path !in touched :: e in t.rows)
    && (t.catalog == s.catalog || SavedOthers(s.rows, t.catalog, touched))
  }

  /** The catalog was written, with every row that was not touched. */
  ghost predicate SavedOthers(rows: Rows, catalog: Rows, touched: set<Path>) {
    && (Distinct(rows) ==> Distinct(catalog))
    && (forall e | e in rows && e.path !in touched :: e in catalog)
  }

  /** Every file is kept, except perhaps at these paths. */
  ghost predicate KeepsFiles(before: Disk, after: Disk, risked: iset<Path>) {
    forall q | q in before && q !in risked :: q in after && after[q] == before[q]
  }

  predicate SetsAsideTo(p: Path, k: nat, q: Path) {
    p != [] && q == StagedName(p, k)
  }

  /** What deleting these paths may cost: their files, and any at a name to set them aside that cannot be looked at. */
  ghost function RiskedByDeleting(touched: set<Path>, env: Env): iset<Path> {
    iset q: Path | q in touched || (env.statFails(q) && exists p, k :: p in touched && SetsAsideTo(p, k, q))
  }

  /** What a rename may cost: the old path, and a file at the new one that no row has and that cannot be looked at. */
  ghost function RiskedByRenaming(rows: Rows, p: Path, requested: string, env: Env): iset<Path> {
    iset q: Path | q == p || (p != [] && RenamedPath(p, requested) == Ok(q) && q !in Paths(rows) && env.statFails(q))
  }

  /** What an operation on the paths `touched` leaves alone, however it ends. */
  ghost predicate LeavesOthers(s: State, t: State, touched: set<Path>, risked: iset<Path>) {
    KeepsOtherRows(s, t, touched) && KeepsFiles(s.disk, t.disk, risked)
  }

  lemma NothingTouched(s: State, touched: set<Path>, risked: iset<Path>)
    ensures LeavesOthers(s, s, touched, risked)
  {
  }

  lemma BothLeaveOthers(
      s: State, t: State, u: State, a: set<Path>, b: set<Path>, risked: iset<Path>, more: iset<Path>)
    requires LeavesOthers(s, t, a, risked) && LeavesOthers(t, u, b, more)
    ensures LeavesOthers(s, u, a + b, risked + more)
  {
  }

  lemma WithoutRowKeeps(rows: Rows, i: nat)
    requires i < |rows|
    ensures forall e | e in rows && e.path != rows[i].path :: e in WithoutRow(rows, i)
    ensures Distinct(rows) ==> Distinct(WithoutRow(rows, i))
  {
    var rest := WithoutRow(rows, i);
    forall e | e in rows && e.path != rows[i].path ensures e in rest {
      var k :| 0 <= k < |rows| && rows[k] == e;
      assert rest[if k < i then k else k - 1] == e;
    }
    assert forall k | 0 <= k < |rest| :: rest[k] == rows[if k < i then k else k + 1];
  }

  // ---------------------------------------------------------------------------
  // Deletes.

  lemma DeleteLeavesOthers(s: State, p: Path, env: Env)
    ensures LeavesOthers(s, Deleted(s, p, env).0, {p}, RiskedByDeleting({p}, env))
  {
    DeleteKeepsOtherRows(s, p, env);
    DeleteKeepsFiles(s, p, env);
    hide Deleted, RiskedByDeleting;
  }

  lemma DeleteKeepsOtherRows(s: State, p: Path, env: Env)
    ensures KeepsOtherRows(s, Deleted(s, p, env).0, {p})
  {
    DeletedRows(s, p, env);
    var found := FindEntry(s.rows, p);
    if found.Ok? { WithoutRowKeeps(s.rows, found.value); }
    hide FindEntry, WithoutRow, Deleted, Distinct;
  }

  lemma DeletedRows(s: State, p: Path, env: Env)
    ensures var t, found := Deleted(s, p, env).0, FindEntry(s.rows, p);
            || (t.rows == s.rows && t.catalog == s.catalog)
            || (found.Ok? && t.rows == WithoutRow(s.rows, found.value)
                && (t.catalog == s.catalog || t.catalog == WithoutRow(s.rows, found.value)))
  {
    hide FindEntry, WithoutRow, Checked, StagedPath, CannotMove, Move;
    var found := FindEntry(s.rows, p);
    if found.Ok? && Checked(s.rows[found.value], s.disk, env).Ok? {
      CheckedIsFile(s.rows[found.value], s.disk, env);
    }
  }

  lemma DeleteKeepsFiles(s: State, p: Path, env: Env)
    ensures KeepsFiles(s.disk, Deleted(s, p, env).0.disk, RiskedByDeleting({p}, env))
  {
    var found := FindEntry(s.rows, p);
    hide FindEntry, WithoutRow, Checked, RiskedByDeleting;
    if found.Ok? && Checked(s.rows[found.value], s.disk, env).Ok? {
      assert p in s.disk by { CheckedIsFile(s.rows[found.value], s.disk, env); }
      DeleteFileKeepsFiles(s, found.value, env);
      hide DeleteFile;
    }
  }

  lemma DeleteFileKeepsFiles(s: State, i: nat, env: Env)
    requires i < |s.rows| && s.rows[i].path != [] && s.rows[i].path in s.disk
    ensures KeepsFiles(s.disk, DeleteFile(s, i, env).0.disk, RiskedByDeleting({s.rows[i].path}, env))
  {
    var p := s.rows[i].path;
    var staged := StagedPath(s.disk, env, p);
    StagedApart(s.disk, env, p);
    assert SetsAsideTo(p, FreeChoice(s.disk, env, p, 0), staged);
    hide StagedPath, WithoutRow, CannotMove, Distinct, SetsAsideTo, FreeChoice;
    assert staged in s.disk ==> staged in RiskedByDeleting({p}, env);
  }

  lemma RiskedTogether(p: Path, rest: set<Path>, env: Env)
    ensures RiskedByDeleting({p} + rest, env) == RiskedByDeleting({p}, env) + RiskedByDeleting(rest, env)
  {
    hide SetsAsideTo;
  }

  lemma {:induction false} EvictLeavesOthers(s: State, candidates: Rows, total: nat, quota: nat, env: Env)
    ensures LeavesOthers(
              s, Evict(s, candidates, total, quota, env).0, Paths(candidates),
              RiskedByDeleting(Paths(candidates), env))
    decreases |candidates|
  {
    hide Deleted, LeavesOthers, RiskedByDeleting;
    if candidates == [] || total <= quota {
      NothingTouched(s, Paths(candidates), RiskedByDeleting(Paths(candidates), env));
    } else {
      var p, rest := candidates[0].path, candidates[1..];
      assert candidates == [candidates[0]] + rest;
      assert Paths(candidates) == {p} + Paths(rest);
      var one, others := RiskedByDeleting({p}, env), RiskedByDeleting(Paths(rest), env);
      RiskedTogether(p, Paths(rest), env);
      var i := RowAt(s.rows, p);
      if i == |s.rows| {
        EvictLeavesOthers(s, rest, total, quota, env);
        NothingTouched(s, {p}, one);
        BothLeaveOthers(s, s, Evict(s, rest, total, quota, env).0, {p}, Paths(rest), one, others);
      } else {
        var (t, r) := Deleted(s, p, env);
        var left := Max(total - s.rows[i].sizeBytes, 0);
        DeleteLeavesOthers(s, p, env);
        EvictLeavesOthers(t, rest, left, quota, env);
        NothingTouched(t, Paths(rest), others);
        var u := if r.Err? then t else Evict(t, rest, left, quota, env).0;
        BothLeaveOthers(s, t, u, {p}, Paths(rest), one, others);
      }
    }
  }

  // ---------------------------------------------------------------------------
  // Renames.

  lemma RenameLeavesOthers(s: State, p: Path, requested: string, env: Env)
    ensures LeavesOthers(s, Renamed(s, p, requested, env).0, {p}, RiskedByRenaming(s.rows, p, requested, env))
  {
    hide *;
    if Renamed(s, p, requested, env).1.Ok? {
      SuccessfulRenameLeavesOthers(s, p, requested, env);
    } else {
      FailedRenameLeavesOthers(s, p, requested, env);
    }
  }

  lemma SuccessfulRenameLeavesOthers(s: State, p: Path, requested: string, env: Env)
    requires Renamed(s, p, requested, env).1.Ok?
    ensures LeavesOthers(s, Renamed(s, p, requested, env).0, {p}, RiskedByRenaming(s.rows, p, requested, env))
  {
    RenameKeepsOtherRows(s, p, requested, env);
    RenameMovesOne(s, p, requested, env);
    hide Renamed, RenamedPath, RowAt, Distinct, Paths, KeepsOtherRows;
  }

  lemma RenameKeepsOtherRows(s: State, p: Path, requested: string, env: Env)
    requires Renamed(s, p, requested, env).1.Ok?
    ensures KeepsOtherRows(s, Renamed(s, p, requested, env).0, {p})
  {
    var (t, r) := Renamed(s, p, requested, env);
    if Distinct(s.rows) { RenameKeepsDistinct(s, p, requested, env); }
    RenameMovesOne(s, p, requested, env);
    ReplacedRowKeeps(s.rows, p, r.value);
    hide Renamed, RenamedPath, RowAt, Distinct, Paths, Move;
  }

  lemma FailedRenameLeavesOthers(s: State, p: Path, requested: string, env: Env)
    requires Renamed(s, p, requested, env).1.Err?
    ensures LeavesOthers(s, Renamed(s, p, requested, env).0, {p}, RiskedByRenaming(s.rows, p, requested, env))
  {
    RenameIsAtomicWhen(s, p, requested, env);
    FailedRenameKeepsFiles(s, p, requested, env);
    hide Renamed, RenamedPath, Distinct, Paths, Move, RowAt, RiskedByRenaming;
  }

  lemma ReplacedRowKeeps(rows: Rows, p: Path, row: ClipEntry)
    requires RowAt(rows, p) < |rows|
    ensures forall e | e in rows && e.path != p :: e in rows[RowAt(rows, p) := row]
  {
    var i := RowAt(rows, p);
    forall e | e in rows && e.path != p ensures e in rows[i := row] {
      var k :| 0 <= k < |rows| && rows[k] == e;
      assert rows[i := row][k] == e;
    }
  }

  lemma FailedRenameKeepsFiles(s: State, p: Path, requested: string, env: Env)
    requires Renamed(s, p, requested, env).1.Err?
    ensures KeepsFiles(s.disk, Renamed(s, p, requested, env).0.disk, RiskedByRenaming(s.rows, p, requested, env))
  {
    hide RenamedPath, RowAt, Paths;
    var found := FindEntry(s.rows, p);
    if found.Ok? && Checked(s.rows[found.value], s.disk, env).Ok? {
      CheckedIsFile(s.rows[found.value], s.disk, env);
      hide Checked, FindEntry;
    }
  }

  // ---------------------------------------------------------------------------
  // Protection.

  lemma ProtectionLeavesOthers(s: State, p: Path, flag: bool, env: Env)
    ensures LeavesOthers(s, ProtectionSet(s, p, flag, env).0, {p}, iset{})
  {
    RowAtFinds(s.rows, p);
    var i := RowAt(s.rows, p);
    if i < |s.rows| { ReplacedRowKeeps(s.rows, p, s.rows[i].(isProtected := flag)); }
    hide Checked, RowAt;
  }

  // ---------------------------------------------------------------------------
  // The quota.

  /**
   * Enforcing the quota touches the present unprotected rows only, even when it stops half way, and
   * costs no file but theirs and those at a name to set one of them aside.
   */
  lemma EnforcedLeavesOthers(s: State, policy: StoragePolicy, env: Env)
    requires Distinct(s.rows)
    ensures var touched := Paths(Candidates(s.rows));
            LeavesOthers(s, Enforced(s, policy, env).0, touched, RiskedByDeleting(touched, env))
    ensures forall e | e in s.rows && (e.missing || e.isProtected) :: e.path !in Paths(Candidates(s.rows))
  {
    var c := Candidates(s.rows);
    CandidatesAreOldestFirst(s.rows);
    forall e, d | e in s.rows && d in c && (e.missing || e.isProtected) ensures d.path != e.path {
      if d.path == e.path { SamePathSameRow(s.rows, d, e); }
    }
    hide Candidates, PresentBytes, Evict, LeavesOthers, RiskedByDeleting;
    if policy.quotaBytes.Some? && policy.automaticDeletion {
      EvictLeavesOthers(s, c, PresentBytes(s.rows), policy.quotaBytes.value, env);
    } else {
      NothingTouched(s, Paths(c), RiskedByDeleting(Paths(c), env));
    }
  }

  /** A file whose name is not temporary is not at a name to set a clip aside. */
  lemma OnlyTemporariesAreRisked(touched: set<Path>, env: Env, q: Path)
    requires q !in touched && (!IsTemporary(FileName(q)) || !env.statFails(q))
    ensures q !in RiskedByDeleting(touched, env)
  {
    hide IsTemporary;
    forall p, k | p in touched && SetsAsideTo(p, k, q) ensures IsTemporary(FileName(q)) {
      StagedNameIsTemporary(p, k);
    }
  }

  /**
   * No file but those of unprotected present rows is touched, however the enforcement ends: not even
   * one that cannot be looked at, if its name is not that of a temporary file.
   */
  lemma OtherFilesSurviveQuota(s: State, policy: StoragePolicy, env: Env, q: Path)
    requires Distinct(s.rows) && q in s.disk && (!IsTemporary(FileName(q)) || !env.statFails(q))
    requires forall e | e in s.rows && e.path == q :: e.missing || e.isProtected
    ensures q in Enforced(s, policy, env).0.disk && Enforced(s, policy, env).0.disk[q] == s.disk[q]
  {
    EnforcedLeavesOthers(s, policy, env);
    CandidatesAreOldestFirst(s.rows);
    hide Enforced, Candidates, IsTemporary, RiskedByDeleting;
    assert forall c | c in Candidates(s.rows) :: c in s.rows && !(c.missing || c.isProtected);
    OnlyTemporariesAreRisked(Paths(Candidates(s.rows)), env, q);
  }
}
