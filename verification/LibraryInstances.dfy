/** Inputs on which the library loses a file: a marked name, and files that cannot be looked at. */
module LibraryInstances {
  import opened Common
  import opened Text
  import opened Names
  import opened ClipIndex
  import opened LibraryActions
  import opened LibraryCleanup
  import Patterns

  /** Nothing fails but looks at one path. */
  function UnreadableAt(p: Path): Env {
    Env(_ => [], _ => false, q => q == p, _ => false, _ => false, _ => false, _ => false, _ => false)
  }

  const CLIP: Path := ["a.mp4"]
  const CLIP_FILE: Node := File([0], Some(1))
  const OTHER_FILE: Node := File([1], Some(2))
  const ROW: ClipEntry := ClipEntry(CLIP, "a.mp4", None, Some(1), None, 1, false, false)

  /** One indexed clip, and one other file beside it. */
  function Beside(other: Path): State {
    State([ROW], map[[] := Directory, CLIP := CLIP_FILE, other := OTHER_FILE], [ROW])
  }

  lemma ClipIsChecked(other: Path, unreadable: Path)
    requires other != CLIP && unreadable != CLIP
    ensures FindEntry(Beside(other).rows, CLIP) == Ok(0)
    ensures Checked(ROW, Beside(other).disk, UnreadableAt(unreadable)) == Ok(CLIP)
  {
    ClipIsFound(other, UnreadableAt(unreadable));
  }

  lemma ClipIsFound(other: Path, env: Env)
    requires other != CLIP && !env.statFails(CLIP) && !env.canonicalFails(CLIP)
    ensures FindEntry(Beside(other).rows, CLIP) == Ok(0) && RowAt([ROW], CLIP) == 0
    ensures Checked(ROW, Beside(other).disk, env) == Ok(CLIP)
  {
    assert RowAt([ROW], CLIP) == 0;
  }

  lemma Untrimmed(s: string)
    requires s != "" && !IsWhitespace(s[0]) && !IsWhitespace(s[|s| - 1])
    ensures Trim(s) == s
  {
  }

  lemma ShortStem(name: string, stem: string)
    requires |stem| < 3 && |stem| < |name| && name[..|stem|] == stem && name[|stem|] == '.' && '.' !in stem
    ensures !IsReserved(name)
  {
    BeforeUnique(name, stem, '.');
    hide IsReserved;
    if IsReserved(name) { ReservedShape(name); }
  }

  lemma PlainCharacters(name: string)
    requires forall c | c in name :: 'a' <= c <= 'z' || c == '.' || c == '-' || c == '4'
    ensures forall c | c in name :: !BadCharacter(c)
  {
  }

  /** A one-letter stem, marked or not, with the extension of a clip. */
  lemma PlainName(head: string)
    requires head != "" && 'a' <= head[0] <= 'z' && (|head| > 1 ==> head[1] == '.')
    requires forall c | c in head :: 'a' <= c <= 'z' || c == '.' || c == '-'
    ensures var name := head + ".mp4";
            Trim(name) == name && ValidateName(name).Ok? && Extension(name) == Some("mp4")
  {
    var name := head + ".mp4";
    assert name[0] == head[0] && name[|name| - 1] == '4' && name[1] == '.' && name[..1] == [head[0]];
    Untrimmed(name);
    ShortStem(name, [head[0]]);
    PlainCharacters(name);
    ClipExtension(head);
    hide Trim, IsReserved, BadCharacter, Extension;
    assert name == head + "." + "mp4";
  }

  lemma RenamesTo(name: string)
    requires Trim(name) == name && ValidateName(name).Ok? && Extension(name) == Some("mp4")
    ensures RenamedPath(CLIP, name) == Ok([name])
  {
    hide Trim, ValidateName, Extension;
    assert Extension("a.mp4") == Some("mp4") by {
      assert "a" + "." + "mp4" == "a.mp4";
      ClipExtension("a");
    }
    assert FileName(CLIP) == "a.mp4";
    assert CLIP[..0] + [name] == [name];
  }

  /** The clip moves to `q`, and nothing fails. */
  lemma ClipMoves(other: Path, q: Path, unreadable: Path)
    requires other != CLIP && other != [] && q != CLIP && q != []
    ensures CLIP in Beside(other).disk && q !in Paths(Beside(other).rows) && other in Beside(other).disk
    ensures Beside(other).disk[other] == OTHER_FILE
    ensures q != other ==> q !in Beside(other).disk
    ensures var (t, r) := RenameFile(Beside(other), 0, q, UnreadableAt(unreadable));
            r.Ok? && r.value.path == q && q in t.disk && t.disk[q] == CLIP_FILE
  {
    hide FileName;
  }

  lemma RenameGoesThrough(s: State, p: Path, requested: string, q: Path, env: Env)
    requires FindEntry(s.rows, p) == Ok(0) && Checked(s.rows[0], s.disk, env).Ok? && p in s.disk
    requires RenamedPath(p, requested) == Ok(q) && q != p && q !in Paths(s.rows) && !Occupied(s.disk, env, q)
    ensures Renamed(s, p, requested, env) == RenameFile(s, 0, q, env)
  {
    hide FindEntry, Checked, RenamedPath, Paths, Occupied, RenameFile;
  }

  const MARKED: string := "x.silk-delete.mp4"

  lemma MarkedNameIsAccepted()
    ensures ValidateName(MARKED).Ok? && RenamedPath(CLIP, MARKED) == Ok([MARKED])
    ensures Patterns.Contains(MARKED, STAGED_MARK)
  {
    assert "x.silk-delete" + ".mp4" == MARKED && "x" + STAGED_MARK + ".mp4" == MARKED;
    hide *;
    PlainName("x.silk-delete");
    MarkInside("x", ".mp4");
    RenamesTo(MARKED);
  }

  lemma MarkedClipMoves()
    ensures var s := Beside(["b.mkv"]);
            var (t, r) := Renamed(s, CLIP, MARKED, UnreadableAt([]));
            r.Ok? && r.value.path == [MARKED] && [MARKED] in t.disk && t.disk[[MARKED]] == CLIP_FILE
  {
    var s, env := Beside(["b.mkv"]), UnreadableAt([]);
    assert |["b.mkv"][0]| == 5 && |MARKED| == 17 && |CLIP[0]| == 5;
    assert CLIP[0][0] == 'a' && ["b.mkv"][0][0] == 'b';
    hide *;
    MarkedNameIsAccepted();
    ClipIsChecked(["b.mkv"], []);
    ClipMoves(["b.mkv"], [MARKED], []);
    NotOccupied(s.disk, env, [MARKED]);
    RenameGoesThrough(s, CLIP, MARKED, [MARKED], env);
  }

  /** A name with the mark of a deleted clip is accepted, and the next opening removes the clip. */
  lemma MarkedClipIsSwept()
    ensures ValidateName("x.silk-delete.mp4").Ok?
    ensures var s := Beside(["b.mkv"]);
            var (t, r) := Renamed(s, CLIP, "x.silk-delete.mp4", UnreadableAt([]));
            && r.Ok? && r.value.path == ["x.silk-delete.mp4"]
            && ["x.silk-delete.mp4"] in t.disk && t.disk[["x.silk-delete.mp4"]] == CLIP_FILE
            && ["x.silk-delete.mp4"] !in Swept(t.disk)
  {
    assert MARKED == "x.silk-delete.mp4";
    assert CLIP_FILE.File?;
    hide *;
    MarkedNameIsAccepted();
    MarkedClipMoves();
    var t := Renamed(Beside(["b.mkv"]), CLIP, MARKED, UnreadableAt([])).0;
    MarkedFileIsLeftover(t.disk, MARKED);
    LeftoversAreSwept(t.disk, [MARKED]);
  }

  lemma NotOccupied(disk: Disk, env: Env, p: Path)
    requires p !in disk || env.statFails(p)
    ensures !Occupied(disk, env, p)
  {
  }

  lemma LeftoversAreSwept(disk: Disk, p: Path)
    requires IsLeftover(disk, p)
    ensures p !in Swept(disk)
  {
    hide IsLeftover;
  }

  lemma MarkedFileIsLeftover(disk: Disk, name: string)
    requires [name] in disk && disk[[name]].File? && Patterns.Contains(name, STAGED_MARK)
    ensures IsLeftover(disk, [name])
  {
    hide Patterns.Contains;
  }

  /** A clip whose protection could not be saved is protected in memory, and not in the catalog. */
  lemma UnsavedProtectionIsInMemoryOnly(env: Env)
    requires env.saveFails(CLIP) && !env.statFails(CLIP) && !env.canonicalFails(CLIP)
    ensures var (t, r) := ProtectionSet(Beside(["b.mkv"]), CLIP, true, env);
            r == Err(CatalogWrite) && t.rows == [ROW.(isProtected := true)] && t.catalog == [ROW]
  {
    assert RowAt([ROW], CLIP) == 0;
  }

  /** Neither the catalog can be written nor a file be moved back. */
  const NO_WAY_BACK: Env :=
    Env(_ => [], _ => false, _ => false, _ => false, _ => false, _ => true, _ => false, _ => true)

  /** A delete that reports an error and keeps the row, and the next opening removes the file. */
  lemma FailedDeleteLosesFile()
    ensures var s := Beside(["b.mkv"]);
            var (t, r) := Deleted(s, CLIP, NO_WAY_BACK);
            r == Err(RollbackFailed) && t.rows == t.catalog == [ROW] && CLIP !in Swept(t.disk)
  {
    var s, staged := Beside(["b.mkv"]), [".a.mp4.silk-delete"];
    assert CLIP[0][0] == 'a' && ["b.mkv"][0][0] == 'b' && staged[0][0] == '.';
    assert "." + FileName(CLIP) + STAGED_MARK + "" == ".a.mp4.silk-delete";
    assert StagedName(CLIP, 0) == CLIP[..0] + [".a.mp4.silk-delete"] == staged;
    assert staged !in s.disk && !Occupied(s.disk, NO_WAY_BACK, staged);
    FreeChoiceIs(s.disk, NO_WAY_BACK, CLIP, 0);
    ClipIsFound(["b.mkv"], NO_WAY_BACK);
    hide Checked, FindEntry, RowAt, FreeChoice, StagedName;
    assert StagedPath(s.disk, NO_WAY_BACK, CLIP) == staged;
    hide StagedPath;
    OpeningFinishesInterruptedDelete(s, CLIP, NO_WAY_BACK);
    hide Deleted, Interrupted, Deletable;
    assert CLIP !in s.disk - {CLIP};
  }

  /** A file at the staged name that cannot be looked at is overwritten by a delete, and removed. */
  lemma UnreadableStagedFileIsLost()
    ensures var staged := [".a.mp4.silk-delete"];
            var (t, r) := Deleted(Beside(staged), CLIP, UnreadableAt(staged));
            staged in Beside(staged).disk && r.Ok? && staged !in t.disk
  {
    var staged := [".a.mp4.silk-delete"];
    var s, env := Beside(staged), UnreadableAt(staged);
    assert "." + FileName(CLIP) + STAGED_MARK + "" == ".a.mp4.silk-delete";
    assert StagedName(CLIP, 0) == CLIP[..0] + [".a.mp4.silk-delete"] == staged;
    assert !Occupied(s.disk, env, staged);
    FreeChoiceIs(s.disk, env, CLIP, 0);
    ClipIsChecked(staged, staged);
    hide Checked, FindEntry, RowAt, FreeChoice, StagedName;
    assert StagedPath(s.disk, env, CLIP) == staged;
    assert Deleted(s, CLIP, env) == DeleteFile(s, 0, env);
  }

  /** A file at the new name that cannot be looked at is overwritten by a rename. */
  lemma UnreadableTargetIsLost()
    ensures var target := ["b.mp4"];
            var (t, r) := Renamed(Beside(target), CLIP, "b.mp4", UnreadableAt(target));
            && Beside(target).disk[target] == OTHER_FILE
            && r.Ok? && target in t.disk && t.disk[target] == CLIP_FILE
  {
    var target := ["b.mp4"];
    var s, env := Beside(target), UnreadableAt(target);
    assert "b" + ".mp4" == "b.mp4" && target[0][0] == 'b' && CLIP[0][0] == 'a';
    assert env.statFails(target);
    hide *;
    PlainName("b");
    RenamesTo("b.mp4");
    ClipIsChecked(target, target);
    ClipMoves(target, target, target);
    NotOccupied(s.disk, env, target);
    RenameGoesThrough(s, CLIP, "b.mp4", target, env);
  }
}
