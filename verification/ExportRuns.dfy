/**
 * Many exports at once on one file store. Every step is one file operation or one process of one
 * export, or another program creating a file; a run is any interleaving.
 */
module ExportRuns {
  import opened Common
  import opened ExportPaths

  type File = nat

  /** A published file, with the staged files that the checks of its export read. */
  datatype Publication = Publication(file: File, seen: seq<File>)

  datatype Phase =
    | Idle
    | Looked                                    // saw no file at the destination
    | Locking                                   // made the lock, stage still to be emptied
    | Cleared                                   // holds the lock, stage emptied
    | Checking(seen: seq<File>)                 // encoded; the staged files each check has read
    | Linked(seen: seq<File>)                   // the destination names the staged file
    | RollingBack                               // the stage could not be unlinked
    | Aborting
    | Releasing(published: Option<Publication>)
    | Done(published: Option<Publication>)

  datatype Export = Export(destination: string, phase: Phase)

  datatype World = World(files: map<string, File>, exports: seq<Export>)

  datatype Step =
    | Look(e: nat, ok: bool)
    | TakeLock(e: nat, ok: bool)
    | ClearStage(e: nat, ok: bool)
    | Encode(e: nat, staged: Option<File>)
    | Check(e: nat, passed: bool)               // one of the probe, packet and decode checks
    | Link(e: nat, ok: bool)                    // publishing by a hard link ...
    | Unlink(e: nat, ok: bool)
    | Rollback(e: nat, ok: bool)
    | Move(e: nat, ok: bool)                    // ... or by a move that never replaces
    | GiveUp(e: nat)
    | DropStage(e: nat, ok: bool)
    | Release(e: nat, ok: bool)
    | Appear(path: string, file: File)          // another program creates a file

  function Stage(w: World, e: nat): string
    requires e < |w.exports|
  {
    StagePath(w.exports[e].destination)
  }

  function Locked(w: World, e: nat): string
    requires e < |w.exports|
  {
    LockPath(w.exports[e].destination)
  }

  /** Between taking the lock and releasing it. */
  predicate Holds(x: Export) {
    !x.phase.Idle? && !x.phase.Looked? && !x.phase.Done?
  }

  /** The export whose link made the destination exist. */
  predicate Owns(x: Export) {
    || x.phase.Linked? || x.phase.RollingBack?
    || (x.phase.Releasing? && x.phase.published.Some?)
    || (x.phase.Done? && x.phase.published.Some?)
  }

  predicate Enabled(w: World, s: Step) {
    match s
    case Look(e, _) => e < |w.exports| && w.exports[e].phase.Idle?
    case TakeLock(e, _) => e < |w.exports| && w.exports[e].phase.Looked?
    case ClearStage(e, _) => e < |w.exports| && w.exports[e].phase.Locking?
    case Encode(e, _) => e < |w.exports| && w.exports[e].phase.Cleared?
    case Check(e, _) => e < |w.exports| && w.exports[e].phase.Checking? && Stage(w, e) in w.files
    case Link(e, _) => e < |w.exports| && w.exports[e].phase.Checking? && |w.exports[e].phase.seen| >= 3
    case Unlink(e, _) => e < |w.exports| && w.exports[e].phase.Linked?
    case Rollback(e, _) => e < |w.exports| && w.exports[e].phase.RollingBack?
    case Move(e, _) => e < |w.exports| && w.exports[e].phase.Checking? && |w.exports[e].phase.seen| >= 3
    case GiveUp(e) => e < |w.exports| && (w.exports[e].phase.Cleared? || w.exports[e].phase.Checking?)
    case DropStage(e, _) => e < |w.exports| && w.exports[e].phase.Aborting?
    case Release(e, _) => e < |w.exports| && w.exports[e].phase.Releasing?
    case Appear(p, _) =>
      p !in w.files && forall e | 0 <= e < |w.exports| :: p != Stage(w, e) && p != Locked(w, e)
  }

  function Moved(w: World, e: nat, phase: Phase): seq<Export>
    requires e < |w.exports|
  {
    w.exports[e := w.exports[e].(phase := phase)]
  }

  function Take(w: World, s: Step): World
    requires Enabled(w, s)
  {
    match s
    case Look(e, ok) =>
      World(w.files, Moved(w, e, if ok && w.exports[e].destination !in w.files then Looked else Done(None)))
    case TakeLock(e, ok) =>
      if ok && Locked(w, e) !in w.files then World(w.files[Locked(w, e) := 0], Moved(w, e, Locking))
      else World(w.files, Moved(w, e, Done(None)))
    case ClearStage(e, ok) =>
      if ok then World(w.files - {Stage(w, e)}, Moved(w, e, Cleared)) else World(w.files, Moved(w, e, Releasing(None)))
    case Encode(e, staged) =>
      World(if staged.Some? then w.files[Stage(w, e) := staged.value] else w.files, Moved(w, e, Checking([])))
    case Check(e, passed) =>
      var seen := w.exports[e].phase.seen + [w.files[Stage(w, e)]];
      World(w.files, Moved(w, e, if passed then Checking(seen) else Aborting))
    case Link(e, ok) =>
      if ok && w.exports[e].destination !in w.files && Stage(w, e) in w.files then
        World(w.files[w.exports[e].destination := w.files[Stage(w, e)]], Moved(w, e, Linked(w.exports[e].phase.seen)))
      else World(w.files, Moved(w, e, Aborting))
    case Unlink(e, ok) =>
      var d := w.exports[e].destination;
      if ok then
        var published := if d in w.files then Some(Publication(w.files[d], w.exports[e].phase.seen)) else None;
        World(w.files - {Stage(w, e)}, Moved(w, e, Releasing(published)))
      else World(w.files, Moved(w, e, RollingBack))
    case Rollback(e, ok) =>
      World(if ok then w.files - {w.exports[e].destination} else w.files, Moved(w, e, Aborting))
    case Move(e, ok) =>
      var d := w.exports[e].destination;
      if ok && d !in w.files && Stage(w, e) in w.files then
        var file := w.files[Stage(w, e)];
        var published := Publication(file, w.exports[e].phase.seen);
        World(w.files[d := file] - {Stage(w, e)}, Moved(w, e, Releasing(Some(published))))
      else World(w.files, Moved(w, e, Aborting))
    case GiveUp(e) => World(w.files, Moved(w, e, Aborting))
    case DropStage(e, ok) => World(if ok then w.files - {Stage(w, e)} else w.files, Moved(w, e, Releasing(None)))
    case Release(e, ok) =>
      World(if ok then w.files - {Locked(w, e)} else w.files, Moved(w, e, Done(w.exports[e].phase.published)))
    case Appear(p, f) => World(w.files[p := f], w.exports)
  }

  predicate Destinations(w: World) {
    forall e | 0 <= e < |w.exports| :: HasMp4Extension(w.exports[e].destination)
  }

  /** The lock excludes: its file exists while it is held, and no two exports hold one stage's lock. */
  predicate Exclusive(w: World) {
    && (forall e | 0 <= e < |w.exports| && Holds(w.exports[e]) :: Locked(w, e) in w.files)
    && (forall e, f | 0 <= e < f < |w.exports| && Holds(w.exports[e]) && Holds(w.exports[f]) ::
          w.exports[e].destination != w.exports[f].destination)
  }

  /** A destination was made by one export only, and is there. */
  predicate Owned(w: World) {
    && (forall e | 0 <= e < |w.exports| && Owns(w.exports[e]) :: w.exports[e].destination in w.files)
    && (forall e, f | 0 <= e < f < |w.exports| && Owns(w.exports[e]) && Owns(w.exports[f]) ::
          w.exports[e].destination != w.exports[f].destination)
  }

  /** All checks of an export read one and the same staged file. */
  predicate SameFile(seen: seq<File>, file: File) {
    forall i | 0 <= i < |seen| :: seen[i] == file
  }

  /** The probe, packet and decode checks all read the published file. */
  predicate Checked(p: Publication) {
    |p.seen| >= 3 && SameFile(p.seen, p.file)
  }

  predicate Consistent(w: World, e: nat)
    requires e < |w.exports|
  {
    var d, s := w.exports[e].destination, Stage(w, e);
    match w.exports[e].phase
    case Checking(seen) => seen != [] ==> s in w.files && SameFile(seen, w.files[s])
    case Linked(seen) => |seen| >= 3 && d in w.files && SameFile(seen, w.files[d])
    case RollingBack => d in w.files
    case Releasing(p) => p.Some? ==> d in w.files && w.files[d] == p.value.file && Checked(p.value)
    case Done(p) => p.Some? ==> d in w.files && w.files[d] == p.value.file && Checked(p.value)
    case _ => true
  }

  predicate Invariant(w: World) {
    && Destinations(w)
    && Exclusive(w)
    && Owned(w)
    && forall e | 0 <= e < |w.exports| :: Consistent(w, e)
  }

  /** The export a step belongs to. */
  function Actor(s: Step): Option<nat> {
    match s
    case Look(e, _) => Some(e)
    case TakeLock(e, _) => Some(e)
    case ClearStage(e, _) => Some(e)
    case Encode(e, _) => Some(e)
    case Check(e, _) => Some(e)
    case Link(e, _) => Some(e)
    case Unlink(e, _) => Some(e)
    case Rollback(e, _) => Some(e)
    case Move(e, _) => Some(e)
    case GiveUp(e) => Some(e)
    case DropStage(e, _) => Some(e)
    case Release(e, _) => Some(e)
    case Appear(_, _) => None
  }

  /** A step leaves alone every file that is not the actor's own stage, lock or link. */
  lemma StepTouches(w: World, s: Step, p: string)
    requires Enabled(w, s)
    requires Actor(s).Some? ==> p != Stage(w, Actor(s).value) && p != Locked(w, Actor(s).value)
    requires s.Rollback? ==> p != w.exports[s.e].destination
    ensures p in w.files ==> p in Take(w, s).files && Take(w, s).files[p] == w.files[p]
    ensures p !in w.files && p in Take(w, s).files ==>
              || (s.Appear? && s.path == p)
              || ((s.Link? || s.Move?) && w.exports[s.e].destination == p && Owns(Take(w, s).exports[s.e]))
  {
  }

  lemma OthersUnmoved(w: World, s: Step, e: nat)
    requires Enabled(w, s) && e < |w.exports| && Actor(s) != Some(e)
    ensures Take(w, s).exports[e] == w.exports[e]
  {
  }

  lemma SameDestinations(w: World, s: Step)
    requires Enabled(w, s)
    ensures |Take(w, s).exports| == |w.exports|
    ensures forall e | 0 <= e < |w.exports| :: Take(w, s).exports[e].destination == w.exports[e].destination
  {
  }

  /** Another export's lock survives, and its holder keeps it alone. */
  lemma StepKeepsExclusive(w: World, s: Step)
    requires Enabled(w, s) && Destinations(w) && Exclusive(w)
    ensures Exclusive(Take(w, s))
  {
    var v := Take(w, s);
    SameDestinations(w, s);
    forall e | 0 <= e < |v.exports| && Holds(v.exports[e]) ensures Locked(v, e) in v.files {
      LockKept(w, s, e);
    }
    forall e, f | 0 <= e < f < |v.exports| && Holds(v.exports[e]) && Holds(v.exports[f])
      ensures v.exports[e].destination != v.exports[f].destination
    {
      StillHeld(w, s, e);
      StillHeld(w, s, f);
    }
  }

  /** Whoever holds a lock after a step held it before, or found it free. */
  lemma StillHeld(w: World, s: Step, e: nat)
    requires Enabled(w, s) && e < |w.exports| && Holds(Take(w, s).exports[e])
    ensures Holds(w.exports[e]) || (s == TakeLock(e, true) && Locked(w, e) !in w.files)
  {
    if Actor(s) != Some(e) { OthersUnmoved(w, s, e); }
  }

  lemma LockKept(w: World, s: Step, e: nat)
    requires Enabled(w, s) && Destinations(w) && Exclusive(w) && e < |w.exports| && Holds(Take(w, s).exports[e])
    ensures Locked(w, e) in Take(w, s).files
  {
    hide HasMp4Extension, StagePath, LockPath;
    StillHeld(w, s, e);
    var a := w.exports[e].destination;
    PathsApart(a, a);
    if Actor(s).Some? {
      PathsApart(a, w.exports[Actor(s).value].destination);
      PathsApart(w.exports[Actor(s).value].destination, a);
    }
    if Actor(s) != Some(e) {
      OthersUnmoved(w, s, e);
      assert Actor(s).Some? && w.exports[Actor(s).value].destination == a ==>
          !Holds(w.exports[Actor(s).value]) || s.TakeLock?;
    }
  }

  /** A destination, once made by an export, stays and stays that export's. */
  lemma StepKeepsOwned(w: World, s: Step)
    requires Enabled(w, s) && Destinations(w) && Owned(w)
    ensures Owned(Take(w, s))
  {
    var v := Take(w, s);
    SameDestinations(w, s);
    forall e | 0 <= e < |v.exports| && Owns(v.exports[e]) ensures v.exports[e].destination in v.files {
      DestinationKept(w, s, e);
    }
    forall e, f | 0 <= e < f < |v.exports| && Owns(v.exports[e]) && Owns(v.exports[f])
      ensures v.exports[e].destination != v.exports[f].destination
    {
      StillOwned(w, s, e);
      StillOwned(w, s, f);
    }
  }

  lemma StillOwned(w: World, s: Step, e: nat)
    requires Enabled(w, s) && e < |w.exports| && Owns(Take(w, s).exports[e])
    ensures Owns(w.exports[e])
            || ((s.Link? || s.Move?) && s.e == e
                && w.exports[e].destination !in w.files && w.exports[e].destination in Take(w, s).files)
  {
    if Actor(s) != Some(e) { OthersUnmoved(w, s, e); }
  }

  lemma DestinationKept(w: World, s: Step, e: nat)
    requires Enabled(w, s) && Destinations(w) && Owned(w) && e < |w.exports| && Owns(Take(w, s).exports[e])
    ensures w.exports[e].destination in Take(w, s).files
    ensures Owns(w.exports[e]) ==>
              w.exports[e].destination in w.files
              && Take(w, s).files[w.exports[e].destination] == w.files[w.exports[e].destination]
  {
    hide HasMp4Extension, StagePath, LockPath;
    StillOwned(w, s, e);
    var d := w.exports[e].destination;
    if Owns(w.exports[e]) {
      if Actor(s).Some? {
        PathsApart(w.exports[Actor(s).value].destination, d);
      }
      if Actor(s) != Some(e) { OthersUnmoved(w, s, e); }
      StepTouches(w, s, d);
    }
  }

  /** The file that was checked is the file that is published. */
  lemma StepKeepsConsistent(w: World, s: Step, e: nat)
    requires Enabled(w, s) && Invariant(w) && e < |w.exports|
    ensures e < |Take(w, s).exports| && Consistent(Take(w, s), e)
  {
    hide HasMp4Extension, StagePath, LockPath;
    SameDestinations(w, s);
    assert Consistent(w, e);
    var d := w.exports[e].destination;
    PathsApart(d, d);
    if Actor(s) == Some(e) {
      ActorConsistent(w, s, e);
    } else {
      OthersUnmoved(w, s, e);
      if Owns(w.exports[e]) { DestinationKept(w, s, e); }
      if w.exports[e].phase.Checking? {
        if Actor(s).Some? {
          var a := Actor(s).value;
          PathsApart(d, w.exports[a].destination);
          PathsApart(w.exports[a].destination, d);
          OtherStage(w, s, e, a);
        } else {
          StepTouches(w, s, Stage(w, e));
        }
      }
    }
  }

  lemma OtherStage(w: World, s: Step, e: nat, a: nat)
    requires Enabled(w, s) && Exclusive(w) && e < |w.exports| && a < |w.exports| && a != e && Actor(s) == Some(a)
    requires w.exports[e].phase.Checking?
    requires w.exports[e].destination != w.exports[a].destination ==> Stage(w, e) != Stage(w, a)
    requires Stage(w, e) != Locked(w, a) && Stage(w, e) != w.exports[a].destination
    ensures Stage(w, e) in w.files ==>
              Stage(w, e) in Take(w, s).files && Take(w, s).files[Stage(w, e)] == w.files[Stage(w, e)]
  {
    hide StagePath, LockPath;
    if w.exports[e].destination != w.exports[a].destination {
      StepTouches(w, s, Stage(w, e));
    } else {
      assert Locked(w, e) == Locked(w, a) && Locked(w, e) in w.files;
      assert !Holds(w.exports[a]);
    }
  }

  lemma ActorConsistent(w: World, s: Step, e: nat)
    requires Enabled(w, s) && e < |w.exports| && Actor(s) == Some(e) && Consistent(w, e)
    requires w.exports[e].destination != Stage(w, e) && w.exports[e].destination != Locked(w, e)
    ensures Consistent(Take(w, s), e)
  {
    hide StagePath, LockPath;
  }

  lemma StepKeepsInvariant(w: World, s: Step)
    requires Enabled(w, s) && Invariant(w)
    ensures Invariant(Take(w, s))
  {
    hide Take, Enabled, Consistent, HasMp4Extension;
    SameDestinations(w, s);
    StepKeepsExclusive(w, s);
    StepKeepsOwned(w, s);
    forall e | 0 <= e < |Take(w, s).exports| ensures Consistent(Take(w, s), e) {
      StepKeepsConsistent(w, s, e);
    }
  }

  predicate Legal(w: World, run: seq<Step>)
    decreases |run|
  {
    run == [] || (Enabled(w, run[0]) && Legal(Take(w, run[0]), run[1..]))
  }

  function After(w: World, run: seq<Step>): World
    requires Legal(w, run)
    decreases |run|
  {
    if run == [] then w else After(Take(w, run[0]), run[1..])
  }

  lemma {:induction false} RunKeepsInvariant(w: World, run: seq<Step>)
    requires Invariant(w) && Legal(w, run)
    ensures Invariant(After(w, run))
    decreases |run|
  {
    hide Invariant, Take, Enabled;
    if run != [] {
      StepKeepsInvariant(w, run[0]);
      RunKeepsInvariant(Take(w, run[0]), run[1..]);
    }
  }

  /** Before anything started. */
  predicate Fresh(w: World) {
    Destinations(w) && forall e | 0 <= e < |w.exports| :: w.exports[e].phase.Idle?
  }

  /**
   * In every interleaving: no two exports hold one stage's lock, and a finished export that
   * published has its file at the destination, with no other export having published there.
   */
  lemma InterleavedExportsAreSafe(w: World, run: seq<Step>)
    requires Fresh(w) && Legal(w, run)
    ensures var v := After(w, run);
            && (forall e, f | 0 <= e < f < |v.exports| && Holds(v.exports[e]) && Holds(v.exports[f]) ::
                  LockPath(v.exports[e].destination) != LockPath(v.exports[f].destination))
            && (forall e | 0 <= e < |v.exports| && v.exports[e].phase.Done? && v.exports[e].phase.published.Some? ::
                  && v.exports[e].destination in v.files
                  && v.files[v.exports[e].destination] == v.exports[e].phase.published.value.file)
            && (forall e, f | 0 <= e < f < |v.exports| && Owns(v.exports[e]) && Owns(v.exports[f]) ::
                  v.exports[e].destination != v.exports[f].destination)
  {
    hide Take, Enabled, HasMp4Extension;
    RunKeepsInvariant(w, run);
    var v := After(w, run);
    forall e, f | 0 <= e < f < |v.exports| && Holds(v.exports[e]) && Holds(v.exports[f])
      ensures LockPath(v.exports[e].destination) != LockPath(v.exports[f].destination)
    {
      PathsApart(v.exports[e].destination, v.exports[f].destination);
    }
    forall e | 0 <= e < |v.exports| && v.exports[e].phase.Done? && v.exports[e].phase.published.Some?
      ensures && v.exports[e].destination in v.files
              && v.files[v.exports[e].destination] == v.exports[e].phase.published.value.file
    {
      assert Consistent(v, e);
    }
  }

  /** In every interleaving, what a finished export published is the very file that each of its checks read. */
  lemma PublishedFileWasChecked(w: World, run: seq<Step>, e: nat)
    requires Fresh(w) && Legal(w, run) && e < |After(w, run).exports|
    requires After(w, run).exports[e].phase.Done? && After(w, run).exports[e].phase.published.Some?
    ensures var v := After(w, run);
            var p := v.exports[e].phase.published.value;
            && v.exports[e].destination in v.files && v.files[v.exports[e].destination] == p.file
            && |p.seen| >= 3 && SameFile(p.seen, p.file)
  {
    hide Take, Enabled, HasMp4Extension;
    RunKeepsInvariant(w, run);
    assert Consistent(After(w, run), e);
  }

  /** A file that was at some clip path before an export began is never changed or removed by any of them. */
  lemma {:induction false} ExistingClipsAreKept(w: World, run: seq<Step>, p: string)
    requires Invariant(w) && Legal(w, run) && HasMp4Extension(p) && p in w.files
    requires forall e | 0 <= e < |w.exports| && (w.exports[e].phase.Linked? || w.exports[e].phase.RollingBack?) ::
               w.exports[e].destination != p
    ensures p in After(w, run).files && After(w, run).files[p] == w.files[p]
    decreases |run|
  {
    hide Invariant, HasMp4Extension, StagePath, LockPath;
    if run != [] {
      var s := run[0];
      StepKeepsInvariant(w, s);
      if Actor(s).Some? { ActorPathsApart(w, Actor(s).value, p); }
      StepTouches(w, s, p);
      SameDestinations(w, s);
      ExistingClipsAreKept(Take(w, s), run[1..], p);
    }
  }

  lemma ActorPathsApart(w: World, e: nat, p: string)
    requires Invariant(w) && e < |w.exports| && HasMp4Extension(p)
    ensures p != Stage(w, e) && p != Locked(w, e)
  {
    hide HasMp4Extension, StagePath, LockPath;
    PathsApart(w.exports[e].destination, p);
  }

  // ---------------------------------------------------------------------------
  // When an export publishes.

  /** The operation succeeded, the check passed, and nobody gave up; how the lock is released does not matter. */
  predicate GoesWell(s: Step) {
    match s
    case Look(_, ok) => ok
    case TakeLock(_, ok) => ok
    case ClearStage(_, ok) => ok
    case Check(_, passed) => passed
    case Link(_, ok) => ok
    case Unlink(_, ok) => ok
    case Move(_, ok) => ok
    case GiveUp(_) => false
    case Rollback(_, _) => false
    case DropStage(_, _) => false
    case _ => true
  }

  /** On the way to a publication, or there. */
  predicate OnItsWay(x: Export) {
    && !x.phase.RollingBack? && !x.phase.Aborting?
    && (x.phase.Releasing? || x.phase.Done? ==> x.phase.published.Some?)
  }

  lemma FailureEndsTheWay(w: World, s: Step, e: nat)
    requires Enabled(w, s) && e < |w.exports|
    ensures e < |Take(w, s).exports|
    ensures OnItsWay(Take(w, s).exports[e]) ==> OnItsWay(w.exports[e]) && (Actor(s) == Some(e) ==> GoesWell(s))
  {
    if Actor(s) != Some(e) { OthersUnmoved(w, s, e); }
  }

  /** In every interleaving, an export that published had every one of its operations succeed and its checks pass. */
  lemma {:induction false} PublishingNeedsEverything(w: World, run: seq<Step>, e: nat)
    requires Legal(w, run) && e < |w.exports|
    ensures e < |After(w, run).exports|
    ensures OnItsWay(After(w, run).exports[e]) ==> forall s | s in run && Actor(s) == Some(e) :: GoesWell(s)
    decreases |run|
  {
    hide Take, Enabled, GoesWell, OnItsWay;
    if run != [] {
      FailureEndsTheWay(w, run[0], e);
      PublishingNeedsEverything(Take(w, run[0]), run[1..], e);
      WayBegins(Take(w, run[0]), run[1..], e);
      assert run == [run[0]] + run[1..];
    }
  }

  lemma {:induction false} WayBegins(w: World, run: seq<Step>, e: nat)
    requires Legal(w, run) && e < |w.exports|
    ensures e < |After(w, run).exports|
    ensures OnItsWay(After(w, run).exports[e]) ==> OnItsWay(w.exports[e])
    decreases |run|
  {
    hide Take, Enabled, OnItsWay;
    if run != [] {
      FailureEndsTheWay(w, run[0], e);
      WayBegins(Take(w, run[0]), run[1..], e);
    }
  }

  /** One step and then a run. */
  lemma Then(w: World, s: Step, run: seq<Step>)
    requires Enabled(w, s) && Legal(Take(w, s), run)
    ensures Legal(w, [s] + run) && After(w, [s] + run) == After(Take(w, s), run)
  {
    assert ([s] + run)[1..] == run;
  }

  /** Everything up to the publication, when nothing gets in the way. */
  function Prepared(e: nat, file: File, rest: seq<Step>): seq<Step> {
    [Look(e, true)] + ([TakeLock(e, true)] + ([ClearStage(e, true)] + ([Encode(e, Some(file))]
    + ([Check(e, true)] + ([Check(e, true)] + ([Check(e, true)] + rest))))))
  }

  /** The world once the file is encoded and checked. */
  function CheckedWorld(w: World, e: nat, file: File): World
    requires e < |w.exports|
  {
    World(w.files[Locked(w, e) := 0][Stage(w, e) := file], Moved(w, e, Checking([file, file, file])))
  }

  lemma PreparedExportIsChecked(w: World, e: nat, file: File, rest: seq<Step>)
    requires e < |w.exports| && w.exports[e].phase.Idle? && HasMp4Extension(w.exports[e].destination)
    requires w.exports[e].destination !in w.files && Locked(w, e) !in w.files
    requires Legal(CheckedWorld(w, e, file), rest)
    ensures Legal(w, Prepared(e, file, rest))
    ensures After(w, Prepared(e, file, rest)) == After(CheckedWorld(w, e, file), rest)
  {
    PathsApart(w.exports[e].destination, w.exports[e].destination);
    hide HasMp4Extension, StagePath, LockPath, After, Legal;
    var w1 := Take(w, Look(e, true));
    var w2 := Take(w1, TakeLock(e, true));
    var w3 := Take(w2, ClearStage(e, true));
    var w4 := Take(w3, Encode(e, Some(file)));
    var w5 := Take(w4, Check(e, true));
    var w6 := Take(w5, Check(e, true));
    assert [] + [file] == [file] && [file] + [file] == [file, file] && [file, file] + [file] == [file, file, file];
    assert w4.files == w.files[Locked(w, e) := 0][Stage(w, e) := file];
    assert Take(w6, Check(e, true)) == CheckedWorld(w, e, file);
    var r6 := [Check(e, true)] + rest;
    var r5 := [Check(e, true)] + r6;
    var r4 := [Check(e, true)] + r5;
    hide Take, Enabled;
    Then(w6, Check(e, true), rest);
    Then(w5, Check(e, true), r6);
    Then(w4, Check(e, true), r5);
    Then(w3, Encode(e, Some(file)), r4);
    Then(w2, ClearStage(e, true), [Encode(e, Some(file))] + r4);
    Then(w1, TakeLock(e, true), [ClearStage(e, true)] + ([Encode(e, Some(file))] + r4));
    Then(w, Look(e, true), [TakeLock(e, true)] + ([ClearStage(e, true)] + ([Encode(e, Some(file))] + r4)));
  }

  /** Publishing by a link or by a move, when nothing gets in the way. */
  function Publishing(e: nat, links: bool): seq<Step> {
    if links then [Link(e, true)] + ([Unlink(e, true)] + ([Release(e, true)] + []))
    else [Move(e, true)] + ([Release(e, true)] + [])
  }

  /** Alone, with the destination and the lock free, an export publishes what was encoded and leaves nothing else. */
  lemma UndisturbedExportPublishes(w: World, e: nat, file: File, links: bool)
    requires e < |w.exports| && w.exports[e].phase.Idle? && HasMp4Extension(w.exports[e].destination)
    requires w.exports[e].destination !in w.files && Locked(w, e) !in w.files
    ensures var run := Prepared(e, file, Publishing(e, links));
            && Legal(w, run)
            && var v := After(w, run);
               && v.exports
                  == w.exports[e := w.exports[e].(phase := Done(Some(Publication(file, [file, file, file]))))]
               && v.files == w.files[w.exports[e].destination := file] - {Stage(w, e)}
  {
    CheckedExportPublishes(w, e, file, links);
    PreparedExportIsChecked(w, e, file, Publishing(e, links));
  }

  lemma CheckedExportPublishes(w: World, e: nat, file: File, links: bool)
    requires e < |w.exports| && HasMp4Extension(w.exports[e].destination)
    requires w.exports[e].destination !in w.files && Locked(w, e) !in w.files
    ensures var c := CheckedWorld(w, e, file);
            && Legal(c, Publishing(e, links))
            && var v := After(c, Publishing(e, links));
               && v.exports
                  == w.exports[e := w.exports[e].(phase := Done(Some(Publication(file, [file, file, file]))))]
               && v.files == w.files[w.exports[e].destination := file] - {Stage(w, e)}
  {
    PathsApart(w.exports[e].destination, w.exports[e].destination);
    hide HasMp4Extension, StagePath, LockPath, After, Legal;
    var c := CheckedWorld(w, e, file);
    if links {
      var c1 := Take(c, Link(e, true));
      var c2 := Take(c1, Unlink(e, true));
      Finished(Take(c2, Release(e, true)));
      Then(c2, Release(e, true), []);
      Then(c1, Unlink(e, true), [Release(e, true)] + []);
      Then(c, Link(e, true), [Unlink(e, true)] + ([Release(e, true)] + []));
    } else {
      var c1 := Take(c, Move(e, true));
      Finished(Take(c1, Release(e, true)));
      Then(c1, Release(e, true), []);
      Then(c, Move(e, true), [Release(e, true)] + []);
    }
  }

  lemma Finished(w: World)
    ensures Legal(w, []) && After(w, []) == w
  {
  }

  /** The clearing up after a failure: the stage, then the lock. */
  function Clearing(e: nat): seq<Step> {
    [DropStage(e, true)] + ([Release(e, true)] + [])
  }

  lemma ClearedUp(w: World, e: nat)
    requires e < |w.exports| && w.exports[e].phase.Aborting?
    ensures Legal(w, Clearing(e))
    ensures After(w, Clearing(e)) == World(w.files - {Stage(w, e)} - {Locked(w, e)}, Moved(w, e, Done(None)))
  {
    hide After, Legal, StagePath, LockPath;
    var w1 := Take(w, DropStage(e, true));
    Finished(Take(w1, Release(e, true)));
    Then(w1, Release(e, true), []);
    Then(w, DropStage(e, true), [Release(e, true)] + []);
  }

  /** An export that is given up once it is encoded leaves no file behind. */
  lemma GivenUpExportLeavesNothing(w: World, e: nat, file: File)
    requires e < |w.exports| && w.exports[e].phase.Idle? && HasMp4Extension(w.exports[e].destination)
    requires w.exports[e].destination !in w.files && Locked(w, e) !in w.files
    ensures var run := Prepared(e, file, [GiveUp(e)] + Clearing(e));
            Legal(w, run) && After(w, run).files == w.files - {Stage(w, e)}
  {
    var c := CheckedWorld(w, e, file);
    hide HasMp4Extension, StagePath, LockPath, After, Legal, Clearing;
    ClearedUp(Take(c, GiveUp(e)), e);
    Then(c, GiveUp(e), Clearing(e));
    PreparedExportIsChecked(w, e, file, [GiveUp(e)] + Clearing(e));
    PathsApart(w.exports[e].destination, w.exports[e].destination);
  }

  /**
   * An export whose stage cannot be unlinked leaves no file behind when its link is rolled back, and
   * its destination when it is not.
   */
  lemma UnlinkFailureIsRolledBack(w: World, e: nat, file: File, back: bool)
    requires e < |w.exports| && w.exports[e].phase.Idle? && HasMp4Extension(w.exports[e].destination)
    requires w.exports[e].destination !in w.files && Locked(w, e) !in w.files
    ensures var d := w.exports[e].destination;
            var run := Prepared(e, file, [Link(e, true)] + ([Unlink(e, false)] + ([Rollback(e, back)] + Clearing(e))));
            && Legal(w, run)
            && After(w, run).files == (if back then w.files else w.files[d := file]) - {Stage(w, e)}
            && After(w, run).exports == Moved(w, e, Done(None))
  {
    var c := CheckedWorld(w, e, file);
    FailedUnlink(w, e, file, back);
    hide *;
    PreparedExportIsChecked(
      w, e, file, [Link(e, true)] + ([Unlink(e, false)] + ([Rollback(e, back)] + Clearing(e))));
  }

  lemma FailedUnlink(w: World, e: nat, file: File, back: bool)
    requires e < |w.exports| && HasMp4Extension(w.exports[e].destination)
    requires w.exports[e].destination !in w.files && Locked(w, e) !in w.files
    ensures var c, d := CheckedWorld(w, e, file), w.exports[e].destination;
            var run := [Link(e, true)] + ([Unlink(e, false)] + ([Rollback(e, back)] + Clearing(e)));
            && Legal(c, run)
            && After(c, run).files == (if back then w.files else w.files[d := file]) - {Stage(w, e)}
            && After(c, run).exports == Moved(w, e, Done(None))
  {
    var c := CheckedWorld(w, e, file);
    PathsApart(w.exports[e].destination, w.exports[e].destination);
    hide HasMp4Extension, StagePath, LockPath, After, Legal, Clearing;
    var c1 := Take(c, Link(e, true));
    var c2 := Take(c1, Unlink(e, false));
    var c3 := Take(c2, Rollback(e, back));
    assert c3.exports == Moved(w, e, Aborting);
    assert c3.files - {Stage(w, e)} - {Locked(w, e)}
        == (if back then w.files else w.files[w.exports[e].destination := file]) - {Stage(w, e)};
    ClearedUp(c3, e);
    Then(c2, Rollback(e, back), Clearing(e));
    Then(c1, Unlink(e, false), [Rollback(e, back)] + Clearing(e));
    Then(c, Link(e, true), [Unlink(e, false)] + ([Rollback(e, back)] + Clearing(e)));
  }
}
