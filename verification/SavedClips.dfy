/** A saved clip as the library will see it: where the controller puts it, and what is left of a save that stopped. */
module SavedClips {
  import opened Common
  import opened Text
  import opened Names
  import opened ClipNaming
  import opened ClipIndex
  import opened LibraryCleanup
  import Patterns

  /** The path below the output directory. */
  function Below(q: Request, p: ClipPath): Path
    requires q.settings.outputDir <= p.directory
  {
    p.directory[|q.settings.outputDir|..] + [p.file]
  }

  /**
   * Every path that the search may choose lies in the output directory, or in the folder of the game
   * below it, and is one that the library takes for a clip, of that game.
   */
  lemma CandidateIsAClip(q: Request, index: nat)
    ensures q.settings.outputDir <= Candidate(q, index).directory
    ensures var p := Below(q, Candidate(q, index));
            && IsSupportedClip(p) && ClipParent(p).Some?
            && ValidateName(FileName(p)).Ok?
            && |p| == (if q.settings.organizeByGame then 2 else 1)
            && GameNameFor(p) == (if q.settings.organizeByGame then Some(GameFolder(q.game)) else None)
  {
    var stem := RenderFileName(q.settings.pattern, q.date, q.time, q.source, index);
    RenderedNameIsValid(q.settings.pattern, q.date, q.time, q.source, index);
    StemIsNamed(q.settings.pattern, q.date, q.time, q.source, index);
    StemHasExtension(stem);
    CandidateLiesBelow(q, index);
    hide RenderFileName, GameFolder, ValidateName, Candidate, Below, Extension, Lower;
    var p := Below(q, Candidate(q, index));
    assert FileName(p) == stem + ".mp4";
  }

  lemma CandidateLiesBelow(q: Request, index: nat)
    ensures q.settings.outputDir <= Candidate(q, index).directory
    ensures var file := RenderFileName(q.settings.pattern, q.date, q.time, q.source, index) + ".mp4";
            Below(q, Candidate(q, index)) == if q.settings.organizeByGame then [GameFolder(q.game), file] else [file]
  {
    hide RenderFileName, GameFolder;
    var out, game := q.settings.outputDir, [GameFolder(q.game)];
    assert (out + game)[|out|..] == game && out[|out|..] == [];
  }

  lemma StemIsNamed(pattern: string, date: string, time: string, source: string, index: nat)
    ensures RenderFileName(pattern, date, time, source, index) != ""
  {
    FallbacksAreValid();
    SanitizedIsValid(FilledPattern(pattern, date, time, source, index), CLIP_FALLBACK);
    hide Filled;
  }

  function FilledPattern(pattern: string, date: string, time: string, source: string, index: nat): string {
    Patterns.ReplaceAll(Filled(pattern, date, time, source), INDEX, Decimal(index))
  }

  lemma StemHasExtension(stem: string)
    requires stem != ""
    ensures Extension(stem + ".mp4") == Some("mp4") && Lower("mp4") == "mp4"
  {
    ClipExtension(stem);
    hide Extension;
    assert stem + "." + "mp4" == stem + ".mp4";
  }

  /**
   * What a save leaves behind when it stops, its staged file and its lock, has the name of a temporary
   * file, so the next opening of the library removes it, and no scan takes it for a clip.
   */
  lemma LeftoversAreTemporary(q: Request, index: nat)
    ensures var p := Candidate(q, index);
            && IsTemporary(Staged(p).file) && IsTemporary(StagedLock(p).file)
            && !IsSupportedClip([Staged(p).file]) && !IsSupportedClip([StagedLock(p).file])
            && Staged(p).directory == StagedLock(p).directory == p.directory
            && Staged(p).file == p.file + ".part" && StagedLock(p).file == p.file + ".part.lock"
  {
    var file := Candidate(q, index).file;
    hide Candidate;
    assert file != "" by { FileIsNamed(q, index); }
    PartIsTemporary(file);
    LockIsTemporary(file);
  }

  lemma FileIsNamed(q: Request, index: nat)
    ensures Candidate(q, index).file != ""
  {
  }

  lemma PartIsTemporary(file: string)
    requires file != ""
    ensures IsTemporary(file + ".part") && !IsSupportedClip([file + ".part"])
  {
    AppendedExtension(file, "part");
    assert file + "." + "part" == file + ".part";
    assert |Lower("part")| == 4;
  }

  lemma LockIsTemporary(file: string)
    requires file != ""
    ensures IsTemporary(file + ".part.lock") && !IsSupportedClip([file + ".part.lock"])
  {
    var name := file + ".part.lock";
    AppendedExtension(file + ".part", "lock");
    assert file + ".part" + "." + "lock" == name;
    assert name[|name| - |".part.lock"|..] == ".part.lock";
    assert |Lower("lock")| == 4;
  }
}
