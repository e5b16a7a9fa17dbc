/** Storage quota: unprotected clips are deleted oldest first until the rest fits. */
module LibraryQuota {
  import opened Common
  import opened Sorting
  import opened ClipIndex
  import opened LibraryScan
  import opened LibraryActions

  datatype StoragePolicy = StoragePolicy(quotaBytes: Option<nat>, automaticDeletion: bool)

  datatype Deletions = Deletions(count: nat, bytes: nat)

  function PresentBytes(rows: Rows): nat {
    if rows == [] then 0 else (if rows[0].missing then 0 else rows[0].sizeBytes) + PresentBytes(rows[1..])
  }

  predicate IsEvictable(e: ClipEntry) {
    !e.missing && !e.isProtected
  }

  function Evictable(rows: Rows): Rows {
    if rows == [] then [] else (if IsEvictable(rows[0]) then [rows[0]] else []) + Evictable(rows[1..])
  }

  function Candidates(rows: Rows): Rows {
    StableSort(OldestFirst, Evictable(rows))
  }

  /** Delete candidates in order while the total is above the quota. */
  function Evict(s: State, candidates: Rows, total: nat, quota: nat, env: Env): (State, Result<Deletions, LibraryError>)
    decreases |candidates|
  {
    if candidates == [] || total <= quota then (s, Ok(Deletions(0, 0)))
    else
      var i := RowAt(s.rows, candidates[0].path);
      if i == |s.rows| then Evict(s, candidates[1..], total, quota, env)
      else
        var size := s.rows[i].sizeBytes;
        var (t, r) := Deleted(s, candidates[0].path, env);
        if r.Err? then (t, Err(r.error))
        else
          var (u, rest) := Evict(t, candidates[1..], Max(total - size, 0), quota, env);
          (u, AfterSome(1, size, rest))
  }

  /** The outcome when `count` rows of `bytes` in all were deleted before. */
  function AfterSome(count: nat, bytes: nat, rest: Result<Deletions, LibraryError>): Result<Deletions, LibraryError> {
    if rest.Err? then rest else Ok(Deletions(count + rest.value.count, bytes + rest.value.bytes))
  }

  function Enforced(s: State, policy: StoragePolicy, env: Env): (State, Result<Deletions, LibraryError>) {
    if policy.quotaBytes.None? || !policy.automaticDeletion then (s, Ok(Deletions(0, 0)))
    else Evict(s, Candidates(s.rows), PresentBytes(s.rows), policy.quotaBytes.value, env)
  }

  lemma {:induction false} KeepTwice(rows: Rows, a: set<Path>, b: set<Path>)
    ensures Keep(Keep(rows, a), b) == Keep(rows, a + b)
  {
    if rows != [] {
      KeepTwice(rows[1..], a, b);
      if rows[0].path !in a {
        var k := Keep(rows, a);
        assert k[0] == rows[0] && k[1..] == Keep(rows[1..], a);
      } else {
        assert [] + Keep(rows[1..], a) == Keep(rows[1..], a);
      }
    }
  }

  lemma {:induction false} RemovedBytes(rows: Rows, i: nat)
    requires i < |rows| && !rows[i].missing
    ensures PresentBytes(rows) == rows[i].sizeBytes + PresentBytes(WithoutRow(rows, i))
  {
    if i == 0 {
      assert WithoutRow(rows, 0) == rows[1..];
    } else {
      RemovedBytes(rows[1..], i - 1);
      var rest := WithoutRow(rows, i);
      assert rest[0] == rows[0] && rest[1..] == WithoutRow(rows[1..], i - 1);
    }
  }

  lemma {:induction false} EvictableMembers(rows: Rows)
    ensures forall e :: e in Evictable(rows) <==> e in rows && IsEvictable(e)
  {
    if rows != [] { EvictableMembers(rows[1..]); }
  }

  lemma {:induction false} EvictableDistinct(rows: Rows)
    requires Distinct(rows)
    ensures Distinct(Evictable(rows))
  {
    if rows != [] {
      EvictableDistinct(rows[1..]);
      EvictableMembers(rows[1..]);
      forall e | e in Evictable(rows[1..]) ensures e.path != rows[0].path {
        var i :| 0 <= i < |rows[1..]| && rows[1..][i] == e;
        assert rows[i + 1] == e;
      }
    }
  }

  /** The candidates are the present, unprotected rows, each once, oldest first. */
  lemma CandidatesAreOldestFirst(rows: Rows)
    requires Distinct(rows)
    ensures Sorted(OldestFirst, Candidates(rows)) && Distinct(Candidates(rows))
    ensures OldestFirstRows(Candidates(rows))
    ensures forall e :: e in Candidates(rows) <==> e in rows && !e.missing && !e.isProtected
  {
    OldestFirstIsOrder();
    StableSortSorts(OldestFirst, Evictable(rows));
    SortedIsOldestFirst(Candidates(rows));
    hide OldestFirst, OldestFirstRows, Sorted, Evictable, StableSort;
    EvictableDistinct(rows);
    EvictableMembers(rows);
    DistinctRearranged(Evictable(rows), Candidates(rows));
    forall e ensures e in Candidates(rows) <==> e in Evictable(rows) {
      assert e in multiset(Candidates(rows)) <==> e in multiset(Evictable(rows));
    }
  }

  // ---------------------------------------------------------------------------
  // What enforcing the quota achieves.

  lemma DeleteOneCandidate(s: State, c: ClipEntry, env: Env)
    requires Distinct(s.rows) && c in s.rows && !c.missing && Deleted(s, c.path, env).1.Ok?
    ensures var t := Deleted(s, c.path, env).0;
            && t.rows == t.catalog == Keep(s.rows, {c.path})
            && Distinct(t.rows)
            && PresentBytes(s.rows) == c.sizeBytes + PresentBytes(t.rows)
            && RowAt(s.rows, c.path) < |s.rows| && s.rows[RowAt(s.rows, c.path)] == c
  {
    var i :| 0 <= i < |s.rows| && s.rows[i] == c;
    RowAtUnique(s.rows, i);
    DeleteOutcome(s, c.path, env);
    RemovingKeepsOthers(s.rows, i);
    RemovedBytes(s.rows, i);
    KeepDistinct(s.rows, {c.path});
  }

  /**
   * The outcome of a successful run over `candidates`: the first `n` of them are gone, each
   * deleted while the total was above the quota, and either the rest fits or none is left.
   */
  ghost predicate Fits(before: Rows, after: Rows, candidates: Rows, quota: nat, d: Deletions) {
    && d.count <= |candidates|
    && after == Keep(before, Paths(candidates[..d.count]))
    && d.bytes == PresentBytes(candidates[..d.count])
    && d.bytes + PresentBytes(after) == PresentBytes(before)
    && (forall k | 0 <= k < d.count :: PresentBytes(before) - PresentBytes(candidates[..k]) > quota)
    && (PresentBytes(after) <= quota || d.count == |candidates|)
  }

  lemma PrefixBytes(candidates: Rows, k: nat)
    requires 1 <= k <= |candidates| && !candidates[0].missing
    ensures PresentBytes(candidates[..k]) == candidates[0].sizeBytes + PresentBytes(candidates[1..][..k - 1])
  {
    assert candidates[..k][0] == candidates[0] && candidates[..k][1..] == candidates[1..][..k - 1];
  }

  lemma PrefixKept(before: Rows, candidates: Rows, n: nat)
    requires 1 <= n <= |candidates|
    ensures Keep(Keep(before, {candidates[0].path}), Paths(candidates[1..][..n - 1]))
              == Keep(before, Paths(candidates[..n]))
  {
    KeepTwice(before, {candidates[0].path}, Paths(candidates[1..][..n - 1]));
    assert candidates[..n] == [candidates[0]] + candidates[1..][..n - 1];
    hide Keep;
    assert Paths(candidates[..n]) == {candidates[0].path} + Paths(candidates[1..][..n - 1]);
  }

  lemma FitsAfterOne(before: Rows, middle: Rows, after: Rows, candidates: Rows, quota: nat, rest: Deletions)
    requires candidates != [] && !candidates[0].missing
    requires middle == Keep(before, {candidates[0].path})
    requires PresentBytes(before) == candidates[0].sizeBytes + PresentBytes(middle) && PresentBytes(before) > quota
    requires Fits(middle, after, candidates[1..], quota, rest)
    ensures Fits(before, after, candidates, quota, Deletions(rest.count + 1, candidates[0].sizeBytes + rest.bytes))
  {
    var n := rest.count + 1;
    assert PresentBytes(candidates[..0]) == 0;
    hide Keep, Paths, PresentBytes;
    PrefixKept(before, candidates, n);
    PrefixBytes(candidates, n);
    forall k | 0 <= k < n ensures PresentBytes(before) - PresentBytes(candidates[..k]) > quota {
      if k > 0 {
        PrefixBytes(candidates, k);
        assert k - 1 < rest.count;
      }
    }
  }

  /** The other candidates are still rows once the first one is gone. */
  lemma RestStays(rows: Rows, candidates: Rows)
    requires candidates != [] && Distinct(candidates) && forall c | c in candidates :: c in rows && !c.missing
    ensures Distinct(candidates[1..])
    ensures forall d | d in candidates[1..] :: d in Keep(rows, {candidates[0].path}) && !d.missing
  {
    forall d | d in candidates[1..] ensures d in Keep(rows, {candidates[0].path}) && !d.missing {
      var k :| 0 <= k < |candidates[1..]| && candidates[1..][k] == d;
      assert candidates[k + 1] == d;
      KeepMembers(rows, {candidates[0].path}, d);
    }
  }

  lemma {:induction false} EvictFits(s: State, candidates: Rows, quota: nat, env: Env)
    requires Distinct(s.rows) && Distinct(candidates)
    requires forall c | c in candidates :: c in s.rows && !c.missing
    requires Evict(s, candidates, PresentBytes(s.rows), quota, env).1.Ok?
    ensures var (t, r) := Evict(s, candidates, PresentBytes(s.rows), quota, env);
            && Fits(s.rows, t.rows, candidates, quota, r.value)
            && (if r.value.count == 0 then t == s else t.catalog == t.rows)
    decreases |candidates|
  {
    hide Deleted, Fits, PresentBytes, Keep;
    if candidates == [] || PresentBytes(s.rows) <= quota {
      NothingToDo(s.rows, candidates, quota);
    } else {
      var c := candidates[0];
      assert c in s.rows;
      RowAtFinds(s.rows, c.path);
      var t := Deleted(s, c.path, env).0;
      DeleteOneCandidate(s, c, env);
      RestStays(s.rows, candidates);
      hide Distinct, Paths;
      EvictFits(t, candidates[1..], quota, env);
      var (u, rest) := Evict(t, candidates[1..], PresentBytes(t.rows), quota, env);
      FitsAfterOne(s.rows, t.rows, u.rows, candidates, quota, rest.value);
    }
  }

  lemma NothingToDo(rows: Rows, candidates: Rows, quota: nat)
    requires candidates == [] || PresentBytes(rows) <= quota
    ensures Fits(rows, rows, candidates, quota, Deletions(0, 0))
  {
    KeepAll(rows, {});
    assert Paths(candidates[..0]) == {};
  }

  function PresentPaths(rows: Rows): set<Path> {
    set e | e in rows && !e.missing :: e.path
  }

  /** The sizes of the present rows, by path. */
  ghost predicate Sizes(rows: Rows, size: Path -> nat) {
    forall e | e in rows && !e.missing :: size(e.path) == e.sizeBytes
  }

  /** The total of an index is the sum of the sizes of its present rows: missing ones do not count. */
  lemma {:induction false} PresentBytesAreSum(rows: Rows, size: Path -> nat)
    requires Distinct(rows) && Sizes(rows, size)
    ensures PresentBytes(rows) == SumOver(PresentPaths(rows), size)
  {
    if rows != [] {
      var e, rest := rows[0], rows[1..];
      FirstPath(rows);
      PresentBytesAreSum(rest, size);
      hide Distinct, PresentPaths;
      if !e.missing { SumWithout(PresentPaths(rows), size, e.path); }
    }
  }

  lemma FirstPath(rows: Rows)
    requires Distinct(rows) && rows != []
    ensures Distinct(rows[1..]) && rows[0] in rows && forall r | r in rows[1..] :: r in rows
    ensures rows[0].missing ==> PresentPaths(rows) == PresentPaths(rows[1..])
    ensures !rows[0].missing ==>
              rows[0].path in PresentPaths(rows) && PresentPaths(rows) - {rows[0].path} == PresentPaths(rows[1..])
  {
    var e, rest := rows[0], rows[1..];
    assert rows == [e] + rest;
    forall r | r in rest ensures r.path != e.path {
      var i :| 0 <= i < |rest| && rest[i] == r;
      assert rows[i + 1] == r;
    }
  }

  /**
   * The deleted rows are the shortest prefix of the unprotected present rows, oldest first, that
   * makes the rest fit, or all of them; every other row stays, in its order; and the sizes add up.
   */
  ghost predicate QuotaMet(before: Rows, after: Rows, candidates: Rows, quota: nat, d: Deletions, size: Path -> nat) {
    var total := SumOver(PresentPaths(before), size);
    && d.count <= |candidates|
    && after == Keep(before, Paths(candidates[..d.count]))
    && d.bytes == SumOver(Paths(candidates[..d.count]), size)
    && SumOver(PresentPaths(after), size) == total - d.bytes
    && (forall k | 0 <= k < d.count :: total - SumOver(Paths(candidates[..k]), size) > quota)
    && (total - d.bytes <= quota || d.count == |candidates|)
  }

  lemma FitsMeetsQuota(before: Rows, after: Rows, candidates: Rows, quota: nat, d: Deletions, size: Path -> nat)
    requires Distinct(before) && Distinct(candidates) && Sizes(before, size)
    requires forall c | c in candidates :: c in before && !c.missing
    requires Fits(before, after, candidates, quota, d)
    ensures QuotaMet(before, after, candidates, quota, d, size)
  {
    PresentBytesAreSum(before, size);
    forall k | 0 <= k <= |candidates|
      ensures PresentBytes(candidates[..k]) == SumOver(Paths(candidates[..k]), size)
    {
      assert forall c | c in candidates[..k] :: c in candidates;
      PresentBytesAreSum(candidates[..k], size);
      assert PresentPaths(candidates[..k]) == Paths(candidates[..k]);
    }
    var gone := Paths(candidates[..d.count]);
    KeepDistinct(before, gone);
    forall e | e in Keep(before, gone) ensures e in before { KeepMembers(before, gone, e); }
    PresentBytesAreSum(Keep(before, gone), size);
    hide PresentBytes, Keep, Distinct, PresentPaths;
  }

  /** Enforcing the quota deletes what it must and nothing else, on an index with distinct paths. */
  lemma QuotaIsEnforced(s: State, policy: StoragePolicy, env: Env, size: Path -> nat)
    requires Distinct(s.rows) && policy.automaticDeletion && policy.quotaBytes.Some? && Sizes(s.rows, size)
    requires Enforced(s, policy, env).1.Ok?
    ensures var (t, r) := Enforced(s, policy, env);
            var gone := Candidates(s.rows)[..Min(r.value.count, |Candidates(s.rows)|)];
            && QuotaMet(s.rows, t.rows, Candidates(s.rows), policy.quotaBytes.value, r.value, size)
            && (forall e :: e in t.rows <==> e in s.rows && e !in gone)
            && (forall e | e in s.rows && (e.missing || e.isProtected) :: e in t.rows)
            && (SumOver(PresentPaths(t.rows), size) <= policy.quotaBytes.value
                || forall e | e in t.rows :: e.missing || e.isProtected)
            && (s.catalog == s.rows ==> t.catalog == t.rows)
  {
    var (t, r) := Enforced(s, policy, env);
    var c := Candidates(s.rows);
    CandidatesAreOldestFirst(s.rows);
    EvictFits(s, c, policy.quotaBytes.value, env);
    FitsMeetsQuota(s.rows, t.rows, c, policy.quotaBytes.value, r.value, size);
    var gone := c[..Min(r.value.count, |c|)];
    hide Candidates, Enforced, PresentBytes, Distinct, PresentPaths, Fits, Sizes;
    forall e ensures e in t.rows <==> e in s.rows && e !in gone {
      KeepMembers(s.rows, Paths(gone), e);
      if e in s.rows && e.path in Paths(gone) {
        var g :| g in gone && g.path == e.path;
        assert g in c;
        SamePathSameRow(s.rows, g, e);
      }
    }
  }

  /** Without a quota, without consent to delete, and when everything present fits, nothing is done. */
  lemma NothingIsDeletedWhen(s: State, policy: StoragePolicy, env: Env, size: Path -> nat)
    requires Distinct(s.rows) && Sizes(s.rows, size)
    requires || policy.quotaBytes.None? || !policy.automaticDeletion
             || SumOver(PresentPaths(s.rows), size) <= policy.quotaBytes.value
    ensures Enforced(s, policy, env) == (s, Ok(Deletions(0, 0)))
  {
    PresentBytesAreSum(s.rows, size);
  }

  function BytesAt(disk: Disk): Path -> nat {
    p => if p in disk && disk[p].File? then |disk[p].bytes| else 0
  }

  /** Where the index agrees with the disk, as after a scan, the sizes are those of the files of indexed clips. */
  lemma SizesOnDisk(rows: Rows, disk: Disk)
    requires AgreesWithDisk(rows, disk)
    ensures Sizes(rows, BytesAt(disk))
    ensures PresentPaths(rows) == set p | p in Paths(rows) && Present(disk, p)
  {
    hide Present;
    forall e | e in rows ensures e.missing <==> !Present(disk, e.path) {}
    forall e | e in rows && !e.missing ensures BytesAt(disk)(e.path) == e.sizeBytes { ShownSize(e, disk); }
    forall p ensures p in PresentPaths(rows) <==> p in Paths(rows) && Present(disk, p) {
      if p in Paths(rows) { var e :| e in rows && e.path == p; }
    }
  }

  lemma ShownSize(e: ClipEntry, disk: Disk)
    requires ShowsFile(e, disk)
    ensures BytesAt(disk)(e.path) == e.sizeBytes
  {
  }

  /** A successful delete adds no file and removes no directory. */
  lemma DeleteShrinksDisk(s: State, p: Path, env: Env)
    requires Deleted(s, p, env).1.Ok?
    ensures var t := Deleted(s, p, env).0;
            && (forall q | q in t.disk :: q in s.disk && t.disk[q] == s.disk[q])
            && (forall q | q in s.disk && s.disk[q].Directory? :: q in t.disk)
  {
    RowAtFinds(s.rows, p);
    DeleteOutcome(s, p, env);
    var i := RowAt(s.rows, p);
    hide StagedPath, RowAt, WithoutRow, Paths;
    if Checked(s.rows[i], s.disk, env).Ok? {
      CheckedIsFile(s.rows[i], s.disk, env);
    }
  }

  lemma {:induction false} EvictShrinksDisk(s: State, candidates: Rows, total: nat, quota: nat, env: Env)
    requires Evict(s, candidates, total, quota, env).1.Ok?
    ensures forall q | q in Evict(s, candidates, total, quota, env).0.disk :: q in s.disk
    decreases |candidates|
  {
    hide Deleted;
    if candidates != [] && total > quota {
      var p := candidates[0].path;
      var i := RowAt(s.rows, p);
      if i == |s.rows| {
        EvictShrinksDisk(s, candidates[1..], total, quota, env);
      } else {
        DeleteShrinksDisk(s, p, env);
        EvictShrinksDisk(Deleted(s, p, env).0, candidates[1..], Max(total - s.rows[i].sizeBytes, 0), quota, env);
      }
    }
  }

  /** The file of a deleted row is gone. */
  lemma {:induction false} EvictedFilesAreGone(s: State, candidates: Rows, quota: nat, env: Env, k: nat)
    requires Distinct(s.rows) && Distinct(candidates)
    requires forall c | c in candidates :: c in s.rows && !c.missing
    requires Evict(s, candidates, PresentBytes(s.rows), quota, env).1.Ok?
    requires k < Evict(s, candidates, PresentBytes(s.rows), quota, env).1.value.count && k < |candidates|
    requires candidates[k].path !in s.disk || Present(s.disk, candidates[k].path)
    ensures candidates[k].path !in Evict(s, candidates, PresentBytes(s.rows), quota, env).0.disk
    decreases |candidates|
  {
    hide Deleted, PresentBytes;
    var c := candidates[0];
    assert c in candidates && c in s.rows;
    RowAtFinds(s.rows, c.path);
    var t := Deleted(s, c.path, env).0;
    DeleteOneCandidate(s, c, env);
    DeleteShrinksDisk(s, c.path, env);
    EvictShrinksDisk(t, candidates[1..], PresentBytes(t.rows), quota, env);
    if k == 0 {
      FileOfDeletedRow(s, c.path, env);
    } else {
      RestStays(s.rows, candidates);
      var d := candidates[k];
      assert candidates[1..][k - 1] == d;
      assert d.path in t.disk ==> Present(t.disk, d.path);
      hide Present, Keep, Paths, Distinct;
      EvictedFilesAreGone(t, candidates[1..], quota, env, k - 1);
    }
  }

  lemma FileOfDeletedRow(s: State, p: Path, env: Env)
    requires Deleted(s, p, env).1.Ok? && RowAt(s.rows, p) < |s.rows| && !s.rows[RowAt(s.rows, p)].missing
    requires p !in s.disk || Present(s.disk, p)
    ensures p !in Deleted(s, p, env).0.disk
  {
    DeleteOutcome(s, p, env);
    var e := s.rows[RowAt(s.rows, p)];
    hide RowAt, StagedPath, WithoutRow, Paths, DeleteFile, DropRow;
    assert FindEntry(s.rows, p).Ok? ==> Checked(e, s.disk, env).Ok? || Checked(e, s.disk, env) == Err(MissingClip);
    hide Deleted;
    if p in s.disk { PresentIsNotMissing(e, s.disk, env); }
  }

  lemma PresentIsNotMissing(e: ClipEntry, disk: Disk, env: Env)
    requires Present(disk, e.path) && !e.missing
    ensures Checked(e, disk, env) != Err(MissingClip)
  {
  }
}
