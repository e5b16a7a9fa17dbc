/** The rows of the clip index, the disk they describe, and the two orders they are sorted in. */
module ClipIndex {
  import opened Common
  import opened Text
  import opened Bytes
  import Mp4Box
  import opened Sorting

  /** A normalised path, as its components below the output directory; the directory itself is `[]`. */
  type Path = seq<string>

  /** What the file system reports for a path, links and reparse points not followed. */
  datatype Node = File(bytes: seq<Byte>, created: Option<nat>) | Directory | Link

  type Disk = map<Path, Node>

  datatype ClipEntry = ClipEntry(
    path: Path,
    name: string,
    gameName: Option<string>,
    createdAt: Option<nat>,
    durationMs: Option<nat>,
    sizeBytes: nat,
    missing: bool,
    isProtected: bool)

  type Rows = seq<ClipEntry>

  /** What the world decides during one call: operations that fail, and directory listings. */
  datatype Env = Env(
    listing: Path -> seq<string>,
    readDirFails: Path -> bool,
    statFails: Path -> bool,           // for a reason other than the path not existing
    canonicalFails: Path -> bool,
    renameFails: Path -> bool,         // moving the file away from this path
    rollbackFails: Path -> bool,       // moving it back there
    removeFails: Path -> bool,         // removing the file staged for this path
    saveFails: Path -> bool)           // writing the catalog, for an operation on this path ([] for a scan)

  datatype LibraryError =
    | Io(path: Path)
    | CatalogWrite
    | RollbackFailed
    | InvalidPath
    | InvalidName
    | NotIndexed
    | MissingClip
    | AlreadyExists

  function FileName(p: Path): string {
    if p == [] then "" else p[|p| - 1]
  }

  /** The directory a clip lies in: the output directory or one game directory below it. */
  function ClipParent(p: Path): Option<Path> {
    if 1 <= |p| <= 2 then Some(p[..|p| - 1]) else None
  }

  function GameNameFor(p: Path): Option<string> {
    if |p| == 2 then Some(p[0]) else None
  }

  /** What follows the last dot of `s`, if it has one. */
  function AfterLastDot(s: string): (r: Option<string>)
    ensures r.Some? ==> |r.value| < |s| && '.' !in r.value && s[|s| - |r.value|..] == r.value
    ensures r.Some? ==> s[|s| - |r.value| - 1] == '.'
    ensures r.None? <==> '.' !in s
  {
    if s == "" then None
    else if s[|s| - 1] == '.' then Some("")
    else
      var r := AfterLastDot(s[..|s| - 1]);
      if r.Some? then Some(r.value + [s[|s| - 1]]) else None
  }

  /** The extension of a file name; a name whose only dot comes first has none. */
  function Extension(name: string): Option<string> {
    var r := AfterLastDot(name);
    if name == ".." || (r.Some? && |r.value| + 1 == |name|) then None else r
  }

  predicate IsSupportedClip(p: Path) {
    var e := Extension(FileName(p));
    e.Some? && Lower(e.value) == "mp4"
  }

  function Duration(p: Path, bytes: seq<Byte>): Option<nat> {
    if IsSupportedClip(p) then Mp4Box.FileDuration(bytes) else None
  }

  function EntryFromFile(p: Path, file: Node, game: Option<string>): ClipEntry
    requires file.File?
  {
    ClipEntry(p, FileName(p), game, file.created, Duration(p, file.bytes), |file.bytes|, false, false)
  }

  function OrElse<T>(a: Option<T>, b: Option<T>): Option<T> {
    if a.Some? then a else b
  }

  /** Bring a row up to date with its file; a creation time once recorded stays. */
  function Refreshed(e: ClipEntry, file: Node): ClipEntry
    requires file.File?
  {
    e.(name := FileName(e.path),
       createdAt := OrElse(e.createdAt, file.created),
       durationMs := OrElse(Duration(e.path, file.bytes), e.durationMs),
       sizeBytes := |file.bytes|,
       missing := false)
  }

  function RowAt(rows: Rows, p: Path): (i: nat)
    ensures i <= |rows| && (i < |rows| ==> rows[i].path == p)
    ensures forall k | 0 <= k < i :: rows[k].path != p
  {
    if rows == [] || rows[0].path == p then 0 else 1 + RowAt(rows[1..], p)
  }

  function Paths(rows: Rows): set<Path> {
    set e | e in rows :: e.path
  }

  predicate Distinct(rows: Rows) {
    forall i, j | 0 <= i < j < |rows| :: rows[i].path != rows[j].path
  }

  lemma RowAtFinds(rows: Rows, p: Path)
    ensures RowAt(rows, p) < |rows| <==> p in Paths(rows)
  {
    var i := RowAt(rows, p);
    if i < |rows| { assert rows[i] in rows; }
  }

  lemma RowAtUnique(rows: Rows, i: nat)
    requires Distinct(rows) && i < |rows|
    ensures RowAt(rows, rows[i].path) == i
  {
    var k := RowAt(rows, rows[i].path);
    assert k <= i;
  }

  /** The rows at other paths. */
  function Keep(rows: Rows, gone: set<Path>): Rows {
    if rows == [] then [] else (if rows[0].path in gone then [] else [rows[0]]) + Keep(rows[1..], gone)
  }

  lemma {:induction false} KeepAll(rows: Rows, gone: set<Path>)
    requires forall e | e in rows :: e.path !in gone
    ensures Keep(rows, gone) == rows
  {
    if rows != [] { KeepAll(rows[1..], gone); }
  }

  lemma {:induction false} KeepMembers(rows: Rows, gone: set<Path>, e: ClipEntry)
    ensures e in Keep(rows, gone) <==> e in rows && e.path !in gone
  {
    if rows != [] { KeepMembers(rows[1..], gone, e); }
  }

  lemma {:induction false} KeepDistinct(rows: Rows, gone: set<Path>)
    requires Distinct(rows)
    ensures Distinct(Keep(rows, gone))
  {
    if rows != [] {
      KeepDistinct(rows[1..], gone);
      forall e | e in Keep(rows[1..], gone) ensures e.path != rows[0].path {
        KeepMembers(rows[1..], gone, e);
        var i :| 0 <= i < |rows[1..]| && rows[1..][i] == e;
        assert rows[i + 1] == e;
      }
    }
  }

  /** An index with distinct paths has one row for each path. */
  lemma {:induction false} OneRowPerPath(rows: Rows)
    requires Distinct(rows)
    ensures |rows| == |Paths(rows)|
  {
    if rows != [] {
      var front, last := rows[..|rows| - 1], rows[|rows| - 1];
      OneRowPerPath(front);
      assert rows == front + [last];
      assert Paths(rows) == Paths(front) + {last.path};
      assert last.path !in Paths(front);
    }
  }

  // ---------------------------------------------------------------------------
  // The two orders.

  function NameThenPath(a: ClipEntry, b: ClipEntry): bool {
    if Lower(a.name) != Lower(b.name) then StringLe(Lower(a.name), Lower(b.name)) else PathLe(a.path, b.path)
  }

  /** The order of optional numbers, with `None` first. */
  function OptionLe(a: Option<nat>, b: Option<nat>): bool {
    a.None? || (b.Some? && a.value <= b.value)
  }

  /** Present rows before missing ones, newest first, then by name and path. */
  function RowLe(a: ClipEntry, b: ClipEntry): bool {
    if a.missing != b.missing then b.missing
    else if a.createdAt != b.createdAt then OptionLe(b.createdAt, a.createdAt)
    else NameThenPath(a, b)
  }

  function Age(e: ClipEntry): nat {
    if e.createdAt.Some? then e.createdAt.value else 0
  }

  /** Oldest first, then by name and path. */
  function OldestFirst(a: ClipEntry, b: ClipEntry): bool {
    if Age(a) != Age(b) then Age(a) < Age(b) else NameThenPath(a, b)
  }

  lemma NameThenPathTotal(a: ClipEntry, b: ClipEntry)
    ensures NameThenPath(a, b) || NameThenPath(b, a)
    ensures NameThenPath(a, b) && NameThenPath(b, a) ==> a.path == b.path
    ensures NameThenPath(a, a)
  {
    StringLeTotal(Lower(a.name), Lower(b.name));
    PathLeTotal(a.path, b.path);
    PathLeTotal(a.path, a.path);
  }

  lemma NameThenPathTransitive(a: ClipEntry, b: ClipEntry, c: ClipEntry)
    requires NameThenPath(a, b) && NameThenPath(b, c)
    ensures NameThenPath(a, c)
  {
    var x, y, z := Lower(a.name), Lower(b.name), Lower(c.name);
    hide Lower, StringLe, PathLe;
    StringLeTotal(x, y);
    StringLeTotal(y, z);
    if x == y == z {
      PathLeTransitive(a.path, b.path, c.path);
    } else if x != y && y != z {
      StringLeTransitive(x, y, z);
    }
  }

  lemma RowLeIsOrder()
    ensures TotalPreorder(RowLe)
  {
    hide NameThenPath;
    forall a, b ensures RowLe(a, b) || RowLe(b, a) {
      NameThenPathTotal(a, b);
    }
    forall a, b, c | RowLe(a, b) && RowLe(b, c) ensures RowLe(a, c) {
      if NameThenPath(a, b) && NameThenPath(b, c) { NameThenPathTransitive(a, b, c); }
    }
  }

  lemma OldestFirstIsOrder()
    ensures TotalPreorder(OldestFirst)
  {
    hide NameThenPath;
    forall a, b ensures OldestFirst(a, b) || OldestFirst(b, a) {
      NameThenPathTotal(a, b);
    }
    forall a, b, c | OldestFirst(a, b) && OldestFirst(b, c) ensures OldestFirst(a, c) {
      if NameThenPath(a, b) && NameThenPath(b, c) { NameThenPathTransitive(a, b, c); }
    }
  }

  /** The names are in order in lower case, and for one name the paths. */
  predicate NamesInOrder(a: ClipEntry, b: ClipEntry) {
    StringLe(Lower(a.name), Lower(b.name)) && (Lower(a.name) == Lower(b.name) ==> PathLe(a.path, b.path))
  }

  /** Present clips come before missing ones, among either the newest first, unknown ages last, and then by name. */
  predicate NewestFirst(rows: Rows) {
    forall i, j | 0 <= i < j < |rows| ::
      && (rows[i].missing ==> rows[j].missing)
      && (rows[i].missing == rows[j].missing ==>
            var a, b := rows[i].createdAt, rows[j].createdAt;
            && (b.Some? ==> a.Some? && a.value >= b.value)
            && (a == b ==> NamesInOrder(rows[i], rows[j])))
  }

  /** Clips of unknown age come first, as if made at the beginning of time, then the oldest, and then by name. */
  predicate OldestFirstRows(rows: Rows) {
    forall i, j | 0 <= i < j < |rows| ::
      var a := if rows[i].createdAt.Some? then rows[i].createdAt.value else 0;
      var b := if rows[j].createdAt.Some? then rows[j].createdAt.value else 0;
      a <= b && (a == b ==> NamesInOrder(rows[i], rows[j]))
  }

  lemma SortedIsOldestFirst(rows: Rows)
    requires Sorted(OldestFirst, rows)
    ensures OldestFirstRows(rows)
  {
    hide NameThenPath, NamesInOrder;
    forall i, j | 0 <= i < j < |rows|
      ensures OldestFirst(rows[i], rows[j])
      ensures NameThenPath(rows[i], rows[j]) ==> NamesInOrder(rows[i], rows[j])
    {
      NameOrder(rows[i], rows[j]);
    }
  }

  lemma NameOrder(a: ClipEntry, b: ClipEntry)
    ensures NameThenPath(a, b) ==> NamesInOrder(a, b)
  {
    StringLeTotal(Lower(a.name), Lower(b.name));
    hide StringLe, PathLe, Lower;
  }

  lemma SortedIsNewestFirst(rows: Rows)
    requires Sorted(RowLe, rows)
    ensures NewestFirst(rows)
  {
    hide NameThenPath, NamesInOrder;
    forall i, j | 0 <= i < j < |rows|
      ensures RowLe(rows[i], rows[j])
      ensures NameThenPath(rows[i], rows[j]) ==> NamesInOrder(rows[i], rows[j])
    {
      NameOrder(rows[i], rows[j]);
    }
  }

  /** Rows with distinct paths are never tied. */
  lemma NoTiedRows(rows: Rows)
    requires Distinct(rows)
    ensures NoTies(RowLe, multiset(rows))
  {
    hide NameThenPath;
    forall a | a in multiset(rows) ensures RowLe(a, a) { NameThenPathTotal(a, a); }
    forall a, b | a in multiset(rows) && b in multiset(rows) && RowLe(a, b) && RowLe(b, a) ensures a == b {
      NameThenPathTotal(a, b);
      SamePathSameRow(rows, a, b);
    }
  }

  lemma SamePathSameRow(rows: Rows, a: ClipEntry, b: ClipEntry)
    requires Distinct(rows) && a in rows && b in rows && a.path == b.path
    ensures a == b
  {
    var i :| 0 <= i < |rows| && rows[i] == a;
    var j :| 0 <= j < |rows| && rows[j] == b;
  }

  /** An arrangement of rows with distinct paths has distinct paths. */
  lemma DistinctRearranged(a: Rows, b: Rows)
    requires Distinct(a) && multiset(a) == multiset(b)
    ensures Distinct(b)
  {
    forall i, j | 0 <= i < j < |b| ensures b[i].path != b[j].path {
      if b[i].path == b[j].path {
        TwiceInBag(b, i, j);
        assert b[i] in multiset(a) && b[j] in multiset(a);
        SamePathSameRow(a, b[i], b[j]);
        OnceInBag(a, b[i]);
      }
    }
  }

  lemma TwiceInBag(s: Rows, i: nat, j: nat)
    requires i < j < |s|
    ensures s[i] == s[j] ==> multiset(s)[s[i]] >= 2
  {
    assert s == s[..i] + [s[i]] + s[i + 1..j] + [s[j]] + s[j + 1..];
  }

  lemma OnceInBag(s: Rows, x: ClipEntry)
    requires Distinct(s) && x in s
    ensures multiset(s)[x] == 1
  {
    var i :| 0 <= i < |s| && s[i] == x;
    assert s == s[..i] + [x] + s[i + 1..];
    assert x !in s[..i] && x !in s[i + 1..];
  }
}
