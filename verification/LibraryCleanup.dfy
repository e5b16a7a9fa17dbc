/** Files left behind by interrupted work, and their removal when the library is opened. */
module LibraryCleanup {
  import opened Common
  import opened Text
  import opened Names
  import opened Patterns
  import opened ClipIndex
  import opened LibraryScan
  import opened LibraryActions

  predicate EndsWith(s: string, end: string) {
    |s| >= |end| && s[|s| - |end|..] == end
  }

  /** A staged save or its lock, or a clip set aside for deletion. */
  predicate IsTemporary(name: string) {
    Extension(name) == Some("part") || EndsWith(name, ".part.lock") || Contains(name, STAGED_MARK)
  }

  predicate IsLeftover(disk: Disk, p: Path) {
    Present(disk, p) && IsTemporary(FileName(p))
  }

  /** The disk once every leftover is removed. */
  function Swept(disk: Disk): Disk {
    map p | p in disk && !IsLeftover(disk, p) :: disk[p]
  }

  /** Some leftovers, and nothing else, are gone. */
  ghost predicate Sweeping(before: Disk, disk: Disk) {
    && (forall p | p in disk :: p in before && disk[p] == before[p])
    && forall p | p in before && p !in disk :: IsLeftover(before, p)
  }

  lemma {:induction false} AppendedExtension(name: string, e: string)
    requires '.' !in e
    ensures AfterLastDot(name + "." + e) == Some(e)
  {
    var s := name + "." + e;
    if e == "" {
      assert s[|s| - 1] == '.';
    } else {
      AppendedExtension(name, e[..|e| - 1]);
      assert s[..|s| - 1] == name + "." + e[..|e| - 1];
      assert s[|s| - 1] == e[|e| - 1];
    }
  }

  /** The extension is what follows the last dot, unless that dot is all there is in front, or the name is two dots. */
  lemma ExtensionExactlyWhen(stem: string, e: string)
    requires '.' !in e
    ensures Extension(stem + "." + e) == if stem == "" || (stem == "." && e == "") then None else Some(e)
    ensures Extension(e) == None
  {
    AppendedExtension(stem, e);
    var name := stem + "." + e;
    assert stem != "" && name == ".." ==> name[..1] == stem && name[2..] == e;
    hide AfterLastDot;
  }

  lemma ClipExtension(head: string)
    requires head != ""
    ensures Extension(head + "." + "mp4") == Some("mp4")
  {
    AppendedExtension(head, "mp4");
    hide AfterLastDot;
    assert |head + "." + "mp4"| > 4;
  }

  /** The mark has its only dot in front, so it cannot reach over into an appended extension. */
  lemma {:induction false} MarkIsNotInExtension(name: string, e: string)
    requires |e| == 3
    ensures Contains(name + "." + e, STAGED_MARK) <==> Contains(name, STAGED_MARK)
  {
    var s := name + "." + e;
    if name != "" {
      MarkIsNotInExtension(name[1..], e);
      assert s[1..] == name[1..] + "." + e;
      if |name| < |STAGED_MARK| <= |s| {
        assert s[|name|] == '.' && STAGED_MARK[|name|] != '.';
        assert s[..|STAGED_MARK|][|name|] != STAGED_MARK[|name|];
      } else if |name| >= |STAGED_MARK| {
        assert s[..|STAGED_MARK|] == name[..|STAGED_MARK|];
      }
    }
  }

  lemma {:induction false} MarkInside(head: string, tail: string)
    ensures Contains(head + STAGED_MARK + tail, STAGED_MARK)
  {
    var s := STAGED_MARK + tail;
    assert s[..|STAGED_MARK|] == STAGED_MARK;
    ContainsAfterPrefix(head, s, STAGED_MARK);
    assert head + s == head + STAGED_MARK + tail;
  }

  lemma MarkedName(head: string, tail: string)
    requires '.' !in tail
    ensures Contains(head + STAGED_MARK + tail, STAGED_MARK)
    ensures AfterLastDot(head + STAGED_MARK + tail) == Some("silk-delete" + tail)
  {
    MarkInside(head, tail);
    hide Contains, AfterLastDot;
    AppendedExtension(head, "silk-delete" + tail);
    assert head + "." + ("silk-delete" + tail) == head + STAGED_MARK + tail;
  }

  /** A clip set aside is recognised when the library is opened, and no scan takes it for a clip. */
  lemma StagedNameIsTemporary(p: Path, k: nat)
    requires p != []
    ensures IsTemporary(FileName(StagedName(p, k)))
    ensures !IsSupportedClip(StagedName(p, k))
  {
    hide Contains, AfterLastDot, Decimal;
    var tail := if k == 0 then "" else "-" + Decimal(k);
    assert '.' !in tail by {
      assert forall c | c in tail :: c == '-' || IsDigit(c);
    }
    MarkedName("." + FileName(p), tail);
    assert FileName(StagedName(p, k)) == "." + FileName(p) + STAGED_MARK + tail;
    assert |Lower("silk-delete" + tail)| > 3;
  }

  lemma LockEnd(s: string)
    ensures EndsWith(s, ".part.lock") ==> s != "" && s[|s| - 1] == 'k'
  {
    if EndsWith(s, ".part.lock") {
      assert s[|s| - |".part.lock"|..][9] == 'k';
    }
  }

  lemma SupportedEnd(p: Path)
    requires IsSupportedClip(p)
    ensures var name := FileName(p);
            name != "" && name[|name| - 1] == '4' && Extension(name) != Some("part") && !EndsWith(name, ".part.lock")
  {
    var name := FileName(p);
    var e := Extension(name).value;
    assert Lower(e)[2] == LowerChar(e[2]) == '4';
    assert name[|name| - 3..][2] == e[2];
    assert Lower("part")[0] == 'p';
    LockEnd(name);
  }

  /** Opening the library removes a clip exactly when its name holds the mark of a deleted clip. */
  lemma ClipIsSweptExactlyWhen(disk: Disk, p: Path)
    requires Discoverable(disk, p)
    ensures p !in Swept(disk) <==> Contains(FileName(p), STAGED_MARK)
  {
    SupportedEnd(p);
  }

  // ---------------------------------------------------------------------------
  // Which rows an action may touch.

  /** No look that an action takes at the clip or its directory fails. */
  predicate Visible(p: Path, env: Env) {
    !env.statFails(p) && !env.canonicalFails(p) && (|p| == 2 ==> !env.statFails(p[..1]))
  }

  /**
   * An action gets at a row's file exactly when the row is not missing, its regular file lies below a
   * safe parent and every look succeeds; the file counts as missing exactly when the row does, or
   * when nothing is there and every look at what is there succeeds.
   */
  lemma ActionsAreSafe(e: ClipEntry, disk: Disk, env: Env)
    ensures var p := e.path;
            && (Checked(e, disk, env).Ok? <==> !e.missing && Present(disk, p) && Visible(p, env))
            && (Checked(e, disk, env).Ok? ==> Checked(e, disk, env).value == p)
            && (Checked(e, disk, env) == Err(MissingClip) <==>
                  && 1 <= |p| <= 2
                  && (e.missing
                      || (|p| == 2 && p[..1] !in disk && !env.statFails(p[..1]))
                      || ((|p| == 2 ==> !env.statFails(p[..1])) && SafeParent(disk, p)
                          && p !in disk && !env.statFails(p))))
  {
  }

  /** A link, or whatever lies below one, is never taken for a clip: no scan finds it and no action gets at it. */
  lemma LinksAreNoClips(e: ClipEntry, disk: Disk, env: Env)
    requires var p := e.path;
             (p in disk && disk[p].Link?) || (|p| == 2 && p[..1] in disk && disk[p[..1]].Link?)
    ensures !Discoverable(disk, e.path) && Checked(e, disk, env).Err?
    ensures Reconciled(e, disk) == e.(missing := true)
    ensures && 1 <= |e.path| <= 2 && !e.missing && Visible(e.path, env) && e.path in disk
            && (|e.path| == 2 ==> e.path[..1] in disk) ==>
              Checked(e, disk, env) == Err(InvalidPath)
  {
  }

  /** The row of this path, when the path may have one. */
  predicate HasRow(s: State, p: Path) {
    1 <= |p| <= 2 && p in Paths(s.rows)
  }

  lemma RowOf(s: State, p: Path)
    ensures FindEntry(s.rows, p).Ok? <==> HasRow(s, p)
    ensures HasRow(s, p) ==>
              var i := RowAt(s.rows, p);
              i < |s.rows| && s.rows[i].path == p && FindEntry(s.rows, p) == Ok(i)
  {
    RowAtFinds(s.rows, p);
  }

  /** Paths that no clip may have, and those without a row, are refused by every action, and nothing is changed. */
  lemma UnknownPathsAreRefused(s: State, p: Path, requested: string, flag: bool, env: Env)
    requires !HasRow(s, p)
    ensures var e: LibraryError := if 1 <= |p| <= 2 then NotIndexed else InvalidPath;
            && Deleted(s, p, env) == (s, Err(e))
            && Renamed(s, p, requested, env) == (s, Err(e))
            && ProtectionSet(s, p, flag, env) == (s, Err(e))
  {
    RowOf(s, p);
    hide Paths;
  }

  /**
   * What a rename of a clip with a file is refused for: a name that is not accepted, or one that
   * another file or row has; nothing is changed then.
   */
  lemma TakenNamesAreRefused(s: State, p: Path, requested: string, env: Env)
    requires HasRow(s, p) && Checked(s.rows[RowAt(s.rows, p)], s.disk, env).Ok?
    ensures RenamedPath(p, requested).Err? ==>
              Renamed(s, p, requested, env) == (s, Err(RenamedPath(p, requested).error))
    ensures RenamedPath(p, requested).Ok? ==>
              var q := RenamedPath(p, requested).value;
              (Renamed(s, p, requested, env) == (s, Err(AlreadyExists)) <==>
                 q != p && (q in Paths(s.rows) || (q in s.disk && !env.statFails(q))))
  {
    RowOf(s, p);
    CheckedIsFile(s.rows[RowAt(s.rows, p)], s.disk, env);
    hide RowAt, Checked, Paths, FindEntry, RenamedPath, RenameFile;
    if RenamedPath(p, requested).Ok? {
      var q := RenamedPath(p, requested).value;
      MovingIsNoClash(s, RowAt(s.rows, p), q, env);
      assert Occupied(s.disk, env, q) <==> q in s.disk && !env.statFails(q);
      hide Occupied;
    }
  }

  lemma MovingIsNoClash(s: State, i: nat, q: Path, env: Env)
    requires i < |s.rows| && s.rows[i].path in s.disk
    ensures RenameFile(s, i, q, env).1 != Err(AlreadyExists)
  {
    hide Move, CannotMove;
  }

  /** A protection request succeeds exactly when the row can be saved, and its file is there or known to be missing. */
  lemma ProtectsExactlyWhen(s: State, p: Path, flag: bool, env: Env)
    ensures ProtectionSet(s, p, flag, env).1.Ok? <==>
            && HasRow(s, p) && !env.saveFails(p)
            && (s.rows[RowAt(s.rows, p)].missing || (Present(s.disk, p) && Visible(p, env)))
    ensures ProtectionSet(s, p, flag, env).1.Ok? ==>
              var t, i := ProtectionSet(s, p, flag, env).0, RowAt(s.rows, p);
              t.rows == t.catalog == s.rows[i := s.rows[i].(isProtected := flag)] && t.disk == s.disk
  {
    RowOf(s, p);
    if HasRow(s, p) { ActionsAreSafe(s.rows[RowAt(s.rows, p)], s.disk, env); }
    hide Checked, FindEntry, RowAt, Present, Visible;
  }

  /**
   * A delete succeeds exactly when there is a row and it can be saved without it, and its file is
   * missing, or can be set aside and removed.
   */
  lemma DeletesExactlyWhen(s: State, p: Path, env: Env)
    ensures Deleted(s, p, env).1.Ok? <==>
            && HasRow(s, p) && !env.saveFails(p)
            && var e := s.rows[RowAt(s.rows, p)];
               || Checked(e, s.disk, env) == Err(MissingClip)
               || (&& !e.missing && Present(s.disk, p) && Visible(p, env) && !env.renameFails(p) && !env.removeFails(p)
                   && !(StagedPath(s.disk, env, p) in s.disk && s.disk[StagedPath(s.disk, env, p)].Directory?))
  {
    RowOf(s, p);
    if HasRow(s, p) { ActionsAreSafe(s.rows[RowAt(s.rows, p)], s.disk, env); }
    hide Checked, FindEntry, RowAt, Present, Visible, StagedPath, WithoutRow, Move;
  }

  /**
   * A rename succeeds exactly when there is a row with a file and the name is accepted, and it is the
   * name the clip has, or one that is free and to which the file can be moved and saved.
   */
  lemma RenamesExactlyWhen(s: State, p: Path, requested: string, env: Env)
    ensures Renamed(s, p, requested, env).1.Ok? <==>
            && HasRow(s, p) && !s.rows[RowAt(s.rows, p)].missing && Present(s.disk, p) && Visible(p, env)
            && RenamedPath(p, requested).Ok?
            && var q := RenamedPath(p, requested).value;
               || q == p
               || (&& (q !in s.disk || (env.statFails(q) && !s.disk[q].Directory?))
                   && q !in Paths(s.rows) && !env.renameFails(p) && !env.saveFails(p))
  {
    RowOf(s, p);
    if HasRow(s, p) { ActionsAreSafe(s.rows[RowAt(s.rows, p)], s.disk, env); }
    hide Checked, FindEntry, RowAt, Present, Visible, RenamedPath, Move, Paths;
  }

  lemma EndsWithExactlyWhen(s: string, end: string)
    ensures EndsWith(s, end) <==> exists head: string :: s == head + end
  {
    if EndsWith(s, end) { assert s == s[..|s| - |end|] + end; }
  }

  // ---------------------------------------------------------------------------
  // Names given by renaming.

  lemma BeforeAppended(name: string, e: string)
    ensures Before(name + "." + e, '.') == Before(name, '.')
  {
    var s, head := name + "." + e, Before(name, '.');
    assert s[..|head|] == name[..|head|];
    BeforeUnique(s, head, '.');
  }

  /** Appending an extension of plain characters keeps a name valid. */
  lemma AppendedIsValid(name: string, e: string)
    requires ValidateName(name).Ok? && e != "" && !IsDotOrSpace(e[|e| - 1]) && forall c | c in e :: !BadCharacter(c)
    ensures ValidateName(name + "." + e).Ok?
  {
    var s := name + "." + e;
    BeforeAppended(name, e);
    assert s[|s| - 1] == e[|e| - 1];
    assert !BadCharacter('.');
  }

  lemma Mp4IsPlain(e: string)
    requires Lower(e) == "mp4"
    ensures |e| == 3 && '.' !in e && !IsDotOrSpace(e[|e| - 1]) && forall c | c in e :: !BadCharacter(c)
  {
    assert Lower(e)[0] == LowerChar(e[0]) == 'm';
    assert Lower(e)[1] == LowerChar(e[1]) == 'p';
    assert Lower(e)[2] == LowerChar(e[2]) == '4';
  }

  lemma ExtendedName(name: string, e: string)
    requires ValidateName(name).Ok? && Lower(e) == "mp4"
    ensures Extension(name + "." + e) == Some(e) && ValidateName(name + "." + e).Ok?
    ensures Contains(name + "." + e, STAGED_MARK) <==> Contains(name, STAGED_MARK)
  {
    Mp4IsPlain(e);
    AppendedExtension(name, e);
    AppendedIsValid(name, e);
    MarkIsNotInExtension(name, e);
    hide Contains, AfterLastDot, ValidateName, Lower;
    assert (name + "." + e)[2..] != "" ==> name + "." + e != "..";
  }

  lemma RenamedName(p: Path, requested: string, q: Path)
    requires IsSupportedClip(p) && p != [] && RenamedPath(p, requested) == Ok(q)
    ensures var name, e := Trim(requested), Extension(FileName(p)).value;
            && ValidateName(name).Ok? && Lower(e) == "mp4"
            && 1 <= |q| <= 2 && |q| == |p| && q[..|p| - 1] == p[..|p| - 1]
            && FileName(q) == (if Extension(name).Some? then name else name + "." + e)
            && (Extension(name).Some? ==> Lower(Extension(name).value) == "mp4")
  {
    hide Trim, ValidateName, AfterLastDot, Extension;
  }

  lemma SameDirectory(p: Path, q: Path)
    requires 1 <= |p| == |q| <= 2 && q[..|p| - 1] == p[..|p| - 1]
    ensures ClipParent(q) == ClipParent(p) && GameNameFor(q) == GameNameFor(p)
  {
    assert |p| == 2 ==> p[..1][0] == q[..1][0];
  }

  /**
   * A renamed clip is still a clip, under a valid name, in the same directory; and the next
   * opening removes it exactly when the requested name holds the mark of a deleted clip.
   */
  lemma RenamedClipIsAClip(p: Path, requested: string, q: Path)
    requires IsSupportedClip(p) && p != [] && RenamedPath(p, requested) == Ok(q)
    ensures IsSupportedClip(q) && ClipParent(q) == ClipParent(p) && GameNameFor(q) == GameNameFor(p)
    ensures ValidateName(FileName(q)).Ok?
    ensures FileName(q) == Trim(requested) || FileName(q) == Trim(requested) + "." + Extension(FileName(p)).value
    ensures Contains(FileName(q), STAGED_MARK) <==> Contains(Trim(requested), STAGED_MARK)
  {
    var name, e := Trim(requested), Extension(FileName(p)).value;
    RenamedName(p, requested, q);
    ExtendedName(name, e);
    SameDirectory(p, q);
    hide Trim, ValidateName, Contains, Extension, RenamedPath, Lower, FileName, ClipParent, GameNameFor;
  }

  /**
   * A name is accepted for a clip exactly when it is valid and has no extension or that of an MP4
   * file, in any case; the clip stays where it is under that name, with its own extension added to
   * a name without one.
   */
  lemma NameIsAcceptedExactlyWhen(p: Path, requested: string)
    requires IsSupportedClip(p) && 1 <= |p| <= 2
    ensures var name, e := Trim(requested), Extension(Trim(requested));
            && (RenamedPath(p, requested).Ok? <==>
                  ValidateName(name).Ok? && (e.None? || Lower(e.value) == "mp4"))
            && (RenamedPath(p, requested).Ok? ==>
                  RenamedPath(p, requested).value ==
                  p[..|p| - 1] + [if e.Some? then name else name + "." + Extension(FileName(p)).value])
            && (RenamedPath(p, requested).Err? ==> RenamedPath(p, requested).error == InvalidName)
  {
    hide Trim, ValidateName, AfterLastDot;
  }

  // ---------------------------------------------------------------------------
  // What the next opening makes of an interrupted delete.

  lemma SweptStaged(disk: Disk, env: Env, p: Path)
    requires Present(disk, p)
    requires var staged := StagedPath(disk, env, p);
             staged in disk ==> !disk[staged].Directory?
    ensures var staged := StagedPath(disk, env, p);
            Swept(Move(disk, p, staged)) == Swept(disk - {p}) <==> !(staged in disk && disk[staged].Link?)
  {
    StagedApart(disk, env, p);
    StagedNameIsTemporary(p, FreeChoice(disk, env, p, 0));
    SetAside(disk, p, StagedPath(disk, env, p));
  }

  lemma SetAside(disk: Disk, p: Path, staged: Path)
    requires Present(disk, p) && staged != p && IsTemporary(FileName(staged))
    requires staged in disk ==> !disk[staged].Directory?
    requires |staged| == |p| && staged[..|p| - 1] == p[..|p| - 1]
    ensures Swept(Move(disk, p, staged)) == Swept(disk - {p}) <==> !(staged in disk && disk[staged].Link?)
  {
    var without := disk - {p, staged};
    StillPresent(disk, p, staged);
    SameDirectoryIsSafe(disk, p, staged);
    hide IsTemporary, Swept, Present, FileName, SafeParent;
    OneMoreLeftover(Move(disk, p, staged), without, staged);
    if staged !in disk {
      assert without == disk - {p};
    } else if disk[staged].File? {
      OneMoreLeftover(disk - {p}, without, staged);
    } else {
      LinkIsKept(disk - {p}, without, staged);
    }
  }

  lemma SameDirectoryIsSafe(disk: Disk, p: Path, staged: Path)
    requires Present(disk, p) && staged != p && |staged| == |p| && staged[..|p| - 1] == p[..|p| - 1]
    ensures staged in disk && disk[staged].File? ==> Present(disk - {p}, staged)
  {
    assert |p| == 2 ==> staged[..1] == p[..1];
  }

  lemma LinkIsKept(a: Disk, b: Disk, link: Path)
    requires link in a && a[link].Link? && link !in b
    ensures Swept(a) != Swept(b)
  {
    hide IsTemporary;
    assert link in Swept(a) && link !in Swept(b);
  }

  lemma StillPresent(disk: Disk, p: Path, staged: Path)
    requires Present(disk, p) && staged != p && |staged| == |p| && staged[..|p| - 1] == p[..|p| - 1]
    ensures p in disk && Present(Move(disk, p, staged), staged)
  {
    assert |p| == 2 ==> staged[..1] == p[..1];
  }

  lemma OneMoreLeftover(a: Disk, b: Disk, except: Path)
    requires except !in b && IsLeftover(a, except)
    requires forall r | r != except :: (r in a <==> r in b) && (r in a ==> a[r] == b[r])
    ensures Swept(a) == Swept(b)
  {
    hide IsTemporary;
    forall q | q != except ensures IsLeftover(a, q) <==> IsLeftover(b, q) {
      SameLeftover(a, b, q, except);
    }
    hide IsLeftover;
  }

  lemma SameLeftover(a: Disk, b: Disk, q: Path, except: Path)
    requires except in a && a[except].File? && except !in b && q != except
    requires forall r | r != except :: (r in a <==> r in b) && (r in a ==> a[r] == b[r])
    ensures IsLeftover(a, q) <==> IsLeftover(b, q)
  {
    hide IsTemporary;
  }

  /** The row of this path has a file, and every look at it succeeds. */
  predicate Deletable(s: State, p: Path, env: Env) {
    FindEntry(s.rows, p).Ok? && Checked(s.rows[RowAt(s.rows, p)], s.disk, env).Ok?
  }

  /** The file can be set aside, and then neither moved back nor removed. */
  predicate Interrupted(s: State, p: Path, env: Env)
    requires p != []
  {
    && !CannotMove(s.disk, env, p, StagedPath(s.disk, env, p))
    && if env.saveFails(p) then env.rollbackFails(p) else env.removeFails(p)
  }

  lemma DeletableIsPresent(s: State, p: Path, env: Env)
    requires Deletable(s, p, env)
    ensures p != [] && Present(s.disk, p) && Deleted(s, p, env) == DeleteFile(s, RowAt(s.rows, p), env)
  {
    CheckedIsFile(s.rows[RowAt(s.rows, p)], s.disk, env);
    hide StagedPath, WithoutRow, Move, CannotMove, RowAt;
  }

  /**
   * A delete reports an error and loses the file all the same, at the next opening, if and only if
   * it was interrupted while the file was set aside, or the clip had the name of a temporary file.
   */
  lemma FailedDeleteLosesFileExactlyWhen(s: State, p: Path, env: Env)
    requires Deletable(s, p, env) && Deleted(s, p, env).1.Err?
    ensures p != []
    ensures p !in Swept(Deleted(s, p, env).0.disk) <==> Interrupted(s, p, env) || IsTemporary(FileName(p))
  {
    DeletableIsPresent(s, p, env);
    StagedApart(s.disk, env, p);
    var staged := StagedPath(s.disk, env, p);
    StillThereIsSwept(s.disk, p);
    StillThereIsSwept(Move(Move(s.disk, p, staged), staged, p), p);
    hide Deleted, WithoutRow, CannotMove, IsTemporary, StagedPath, Present;
  }

  lemma StillThereIsSwept(disk: Disk, p: Path)
    ensures Present(disk, p) ==> (p !in Swept(disk) <==> IsTemporary(FileName(p)))
  {
    hide IsTemporary;
  }

  /**
   * After a delete that was interrupted while the file was set aside, the next opening leaves the
   * disk as it would without that file, even where the row was kept; except that setting it aside
   * may have replaced a link that could not be looked at.
   */
  lemma OpeningFinishesInterruptedDelete(s: State, p: Path, env: Env)
    requires Deletable(s, p, env) && p != [] && Interrupted(s, p, env)
    ensures Deleted(s, p, env).1.Err?
    ensures var staged := StagedPath(s.disk, env, p);
            Swept(Deleted(s, p, env).0.disk) == Swept(s.disk - {p}) <==>
            !(staged in s.disk && s.disk[staged].Link?)
    ensures env.saveFails(p) ==> Deleted(s, p, env) == (s.(disk := Deleted(s, p, env).0.disk), Err(RollbackFailed))
  {
    DeletableIsPresent(s, p, env);
    SweptStaged(s.disk, env, p);
    hide Deleted, StagedPath, Move, Swept;
  }
}
