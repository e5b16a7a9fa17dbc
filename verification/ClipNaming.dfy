/** Choosing the path of the next saved clip. */
module ClipNaming {
  import opened Common
  import opened Text
  import opened Names
  import opened Patterns

  const DATE: string := "{date}"
  const TIME: string := "{time}"
  const SOURCE: string := "{source}"
  const INDEX: string := "{index}"

  /** The pattern with everything but the collision index filled in. */
  function Filled(pattern: string, date: string, time: string, source: string): string {
    ReplaceAll(ReplaceAll(ReplaceAll(pattern, DATE, date), TIME, time), SOURCE, source)
  }

  function Suffix(pattern: string, index: nat): string {
    if !Contains(pattern, INDEX) && index > 1 then "_" + Decimal(index - 1) else ""
  }

  function RenderFileName(pattern: string, date: string, time: string, source: string, index: nat): string {
    Sanitized(ReplaceAll(Filled(pattern, date, time, source), INDEX, Decimal(index)), CLIP_FALLBACK)
    + Suffix(pattern, index)
  }

  // ---------------------------------------------------------------------------
  // What sanitizing does to a name with the index filled in.

  function ReplacedPieces(parts: seq<string>): seq<string> {
    seq(|parts|, i requires 0 <= i < |parts| => Replaced(parts[i]))
  }

  lemma {:induction false} ReplacedJoin(parts: seq<string>, digits: string)
    requires parts != [] && forall c | c in digits :: IsDigit(c)
    ensures Replaced(Join(parts, digits)) == Join(ReplacedPieces(parts), digits)
  {
    assert Replaced(digits) == digits by {
      forall i | 0 <= i < |digits| ensures !BadCharacter(digits[i]) {
        assert digits[i] in digits;
      }
    }
    if |parts| > 1 {
      ReplacedJoin(parts[1..], digits);
      assert ReplacedPieces(parts)[1..] == ReplacedPieces(parts[1..]);
      var tail := Join(parts[1..], digits);
      assert Replaced(parts[0] + digits + tail) == Replaced(parts[0]) + Replaced(digits) + Replaced(tail);
    }
  }

  lemma {:induction false} DropTrailingStops(head: string, tail: string)
    requires head != "" && !IsDotOrSpace(head[|head| - 1])
    ensures DropTrailing(head + tail) == head + DropTrailing(tail)
    decreases |tail|
  {
    var s := head + tail;
    if tail == "" {
      assert s == head;
    } else if IsDotOrSpace(tail[|tail| - 1]) {
      assert s[..|s| - 1] == head + tail[..|tail| - 1];
      DropTrailingStops(head, tail[..|tail| - 1]);
    }
  }

  function TrimLast(parts: seq<string>): (r: seq<string>)
    requires parts != []
  {
    parts[..|parts| - 1] + [DropTrailing(parts[|parts| - 1])]
  }

  lemma {:induction false} DropTrailingJoin(parts: seq<string>, digits: string)
    requires |parts| > 1 && digits != "" && forall c | c in digits :: IsDigit(c)
    ensures DropTrailing(Join(parts, digits)) == Join(TrimLast(parts), digits)
  {
    var head := parts[0] + digits;
    var tail := Join(parts[1..], digits);
    assert digits[|digits| - 1] in digits;
    assert head[|head| - 1] == digits[|digits| - 1];
    DropTrailingStops(head, tail);
    assert Join(parts, digits) == head + tail;
    var trimmed := TrimLast(parts);
    assert trimmed[0] == parts[0];
    assert trimmed[1..] == TrimLast(parts[1..]);
    if |parts| > 2 {
      DropTrailingJoin(parts[1..], digits);
    }
    assert Join(trimmed, digits) == head + Join(trimmed[1..], digits);
  }

  /** The pieces a sanitized name keeps around its index. */
  function CleanPieces(filled: string): (r: seq<string>)
    ensures r != []
  {
    TrimLast(ReplacedPieces(Pieces(filled, INDEX)))
  }

  lemma SanitizedJoinsCleanPieces(filled: string, index: nat)
    requires Contains(filled, INDEX)
    ensures |CleanPieces(filled)| > 1
    ensures Sanitized(ReplaceAll(filled, INDEX, Decimal(index)), CLIP_FALLBACK)
            == Guarded(Join(CleanPieces(filled), Decimal(index)))
  {
    var d := Decimal(index);
    var parts := Pieces(filled, INDEX);
    PiecesCountOccurrences(filled, INDEX);
    ReplacementJoinsPieces(filled, INDEX, d);
    ReplacedJoin(parts, d);
    DropTrailingJoin(ReplacedPieces(parts), d);
    JoinStarts(CleanPieces(filled), d);
  }

  lemma JoinStarts(parts: seq<string>, digits: string)
    requires |parts| > 1 && digits != ""
    ensures Join(parts, digits) != ""
    ensures Join(parts, digits)[0] == if parts[0] != "" then parts[0][0] else digits[0]
  {
  }

  lemma {:induction false} JoinLength(parts: seq<string>, shorter: string, longer: string)
    requires parts != [] && |shorter| <= |longer|
    ensures |Join(parts, shorter)| <= |Join(parts, longer)|
    ensures |parts| > 1 && |shorter| < |longer| ==> |Join(parts, shorter)| < |Join(parts, longer)|
  {
    if |parts| > 1 {
      JoinLength(parts[1..], shorter, longer);
    }
  }

  lemma JoinInjective(parts: seq<string>, d: string, e: string)
    requires |parts| > 1 && |d| <= |e| && Join(parts, d) == Join(parts, e)
    ensures d == e
  {
    JoinLength(parts, d, e);
    var n := |parts[0]|;
    assert Join(parts, d)[n..n + |d|] == d;
    assert Join(parts, e)[n..n + |e|] == e;
  }

  lemma GuardedStart(a: string, x: string)
    requires a != ""
    ensures Guarded(a) + x == if IsReserved(a) then "_" + (a + x) else a + x
    ensures (Guarded(a) + x)[0] == if IsReserved(a) then '_' else a[0]
    ensures IsReserved(a) ==> a[0] != '_' && !IsDigit(a[0])
  {
    if IsReserved(a) { ReservedShape(a); }
    assert "_" + a + x == "_" + (a + x);
  }

  /** Whether a name had to be guarded cannot tell two indices apart. */
  lemma SameGuard(parts: seq<string>, d: string, e: string, x: string, y: string)
    requires |parts| > 1 && d != "" && e != "" && IsDigit(d[0]) && IsDigit(e[0])
    requires Guarded(Join(parts, d)) + x == Guarded(Join(parts, e)) + y
    ensures Join(parts, d) + x == Join(parts, e) + y
  {
    hide IsReserved, Join, Guarded;
    var a, b := Join(parts, d), Join(parts, e);
    JoinStarts(parts, d);
    JoinStarts(parts, e);
    GuardedStart(a, x);
    GuardedStart(b, y);
    assert IsReserved(a) == IsReserved(b);
    if IsReserved(a) {
      assert ("_" + (a + x))[1..] == a + x;
      assert ("_" + (b + y))[1..] == b + y;
    }
  }

  lemma SuffixGrows(pattern: string, m: nat, n: nat)
    requires 1 <= m < n
    ensures |Suffix(pattern, m)| <= |Suffix(pattern, n)|
    ensures !Contains(pattern, INDEX) ==> Suffix(pattern, m) != Suffix(pattern, n)
  {
    if m > 1 {
      DecimalLengthMonotone(m - 1, n - 1);
      if !Contains(pattern, INDEX) && Suffix(pattern, m) == Suffix(pattern, n) {
        assert Suffix(pattern, m)[1..] == Decimal(m - 1) && Suffix(pattern, n)[1..] == Decimal(n - 1);
        DecimalInjective(m - 1, n - 1);
      }
    }
  }

  /** Different collision indices render to different names, for every pattern and every filled-in text. */
  lemma RenderedNamesDiffer(pattern: string, date: string, time: string, source: string, m: nat, n: nat)
    requires 1 <= m < n
    ensures RenderFileName(pattern, date, time, source, m) != RenderFileName(pattern, date, time, source, n)
  {
    hide Sanitized, ReplaceAll, Guarded;
    var filled := Filled(pattern, date, time, source);
    SuffixGrows(pattern, m, n);
    if !Contains(filled, INDEX) {
      if Contains(pattern, INDEX) {
        FilledKeepsIndex(pattern, date, time, source);
      }
      IndexAbsent(filled, Decimal(m));
      IndexAbsent(filled, Decimal(n));
      var s := Sanitized(filled, CLIP_FALLBACK);
      var x, y := s + Suffix(pattern, m), s + Suffix(pattern, n);
      assert x[|s|..] == Suffix(pattern, m) && y[|s|..] == Suffix(pattern, n);
    } else if RenderFileName(pattern, date, time, source, m) == RenderFileName(pattern, date, time, source, n) {
      var parts := CleanPieces(filled);
      var d, e := Decimal(m), Decimal(n);
      SanitizedJoinsCleanPieces(filled, m);
      SanitizedJoinsCleanPieces(filled, n);
      assert d[0] in d && e[0] in e;
      SameGuard(parts, d, e, Suffix(pattern, m), Suffix(pattern, n));
      DecimalLengthMonotone(m, n);
      JoinLength(parts, d, e);
      var a, b := Join(parts, d), Join(parts, e);
      assert (a + Suffix(pattern, m))[..|a|] == a && (b + Suffix(pattern, n))[..|b|] == b;
      JoinInjective(parts, d, e);
      DecimalInjective(m, n);
    }
  }

  lemma FilledKeepsIndex(pattern: string, date: string, time: string, source: string)
    requires Contains(pattern, INDEX)
    ensures Contains(Filled(pattern, date, time, source), INDEX)
  {
    hide Contains, ReplaceAll;
    var one := ReplaceAll(pattern, DATE, date);
    ReplaceKeepsOther(pattern, DATE, date, INDEX);
    ReplaceKeepsOther(one, TIME, time, INDEX);
    ReplaceKeepsOther(ReplaceAll(one, TIME, time), SOURCE, source, INDEX);
  }

  lemma IndexAbsent(filled: string, digits: string)
    requires !Contains(filled, INDEX)
    ensures ReplaceAll(filled, INDEX, digits) == filled
  {
    PiecesCountOccurrences(filled, INDEX);
    ReplacementJoinsPieces(filled, INDEX, digits);
    ReplacementJoinsPieces(filled, INDEX, INDEX);
    ReplaceWithItself(filled, INDEX);
  }

  lemma {:induction false} ReplaceWithItself(s: string, token: string)
    requires token != ""
    ensures ReplaceAll(s, token, token) == s
    decreases |s|
  {
    if |s| < |token| {
    } else if StartsWith(s, token) {
      ReplaceWithItself(s[|token|..], token);
    } else {
      ReplaceWithItself(s[1..], token);
    }
  }

  /** A rendered clip name with its extension is one the library accepts. */
  lemma RenderedNameIsValid(pattern: string, date: string, time: string, source: string, index: nat)
    ensures ValidateName(RenderFileName(pattern, date, time, source, index) + ".mp4").Ok?
  {
    hide ReplaceAll, Contains;
    FallbacksAreValid();
    var raw := ReplaceAll(Filled(pattern, date, time, source), INDEX, Decimal(index));
    SanitizedIsValid(raw, CLIP_FALLBACK);
    ExtendedNameIsValid(Sanitized(raw, CLIP_FALLBACK), Suffix(pattern, index));
  }

  lemma ExtendedNameIsValid(s: string, suffix: string)
    requires ValidateName(s).Ok?
    requires suffix == "" || (suffix[0] == '_' && forall c | c in suffix[1..] :: IsDigit(c))
    ensures ValidateName(s + suffix + ".mp4").Ok?
  {
    var name := s + suffix + ".mp4";
    assert name[|name| - 1] == '4';
    forall c | c in name ensures !BadCharacter(c) {
      if c in s {
        assert !BadCharacter(c);
      } else if c in suffix {
        var i :| 0 <= i < |suffix| && suffix[i] == c;
        assert i > 0 ==> suffix[1..][i - 1] == c;
        assert c == '_' || IsDigit(c);
      } else {
        assert c in ".mp4";
        assert c == '.' || c == 'm' || c == 'p' || c == '4';
      }
    }
    var stem := Before(s, '.');
    if |stem| < |s| || suffix == "" {
      assert name[..|stem|] == stem;
      BeforeUnique(name, stem, '.');
    } else if IsReserved(name) {
      ReservedWithUnderscore(name, |s|);
    }
  }

  /** No device name holds an underscore. */
  lemma ReservedWithUnderscore(name: string, at: nat)
    requires at < |name| && name[at] == '_' && '.' !in name[..at]
    ensures !IsReserved(name)
  {
    var stem := Before(name, '.');
    assert name[..at + 1] == name[..at] + ['_'];
    BeforePasses(name, '.', at);
    assert stem[at] == '_';
    if Upper(stem) in RESERVED {
      assert Upper(stem)[at] == '_';
      NoUnderscoreReserved(Upper(stem), at);
    }
  }

  lemma NoUnderscoreReserved(word: string, at: nat)
    requires word in RESERVED && at < |word|
    ensures word[at] != '_'
  {
    assert |word| <= 4;
  }

  // ---------------------------------------------------------------------------
  // Paths.

  /** A path as its directory and its last component. */
  datatype ClipPath = ClipPath(directory: seq<string>, file: string)

  datatype Settings = Settings(outputDir: seq<string>, pattern: string, organizeByGame: bool)

  /** What is fixed for the whole of one search: the settings, the game, and the time of the save. */
  datatype Request = Request(settings: Settings, game: Option<string>, date: string, time: string, source: string)

  function Candidate(q: Request, index: nat): ClipPath {
    ClipPath(
      if q.settings.organizeByGame then q.settings.outputDir + [GameFolder(q.game)] else q.settings.outputDir,
      RenderFileName(q.settings.pattern, q.date, q.time, q.source, index) + ".mp4")
  }

  function Staged(p: ClipPath): ClipPath {
    p.(file := p.file + ".part")
  }

  function StagedLock(p: ClipPath): ClipPath {
    p.(file := p.file + ".part.lock")
  }

  /** A candidate is taken when its file, its staged file or its lock exists, or another save reserved it. */
  predicate Taken(p: ClipPath, onDisk: set<ClipPath>, reserved: set<ClipPath>) {
    p in onDisk || Staged(p) in onDisk || StagedLock(p) in onDisk || p in reserved
  }

  /** What takes a candidate: another save, or its file, its staged file or its lock on disk. */
  lemma TakenMeans(p: ClipPath, onDisk: set<ClipPath>, reserved: set<ClipPath>)
    requires Taken(p, onDisk, reserved)
    ensures p in reserved || exists end | end in {"", ".part", ".part.lock"} ::
              ClipPath(p.directory, p.file + end) in onDisk
  {
    assert p.file + "" == p.file;
    if p in onDisk { assert ClipPath(p.directory, p.file + "") in onDisk; }
  }

  lemma CandidatesDiffer(q: Request, m: nat, n: nat)
    requires 1 <= m < n
    ensures Candidate(q, m) != Candidate(q, n)
  {
    hide RenderFileName;
    RenderedNamesDiffer(q.settings.pattern, q.date, q.time, q.source, m, n);
    var x, y := Candidate(q, m).file, Candidate(q, n).file;
    AppendInjective(x[..|x| - 4], y[..|y| - 4], ".mp4");
  }

  /** What makes a taken candidate taken, tagged with the place it was found in. */
  function Blocker(p: ClipPath, onDisk: set<ClipPath>): (bool, ClipPath) {
    if p in onDisk then (true, p)
    else if Staged(p) in onDisk then (true, Staged(p))
    else if StagedLock(p) in onDisk then (true, StagedLock(p))
    else (false, p)
  }

  function Blockers(onDisk: set<ClipPath>, reserved: set<ClipPath>): set<(bool, ClipPath)> {
    (set p | p in onDisk :: (true, p)) + (set p | p in reserved :: (false, p))
  }

  lemma {:induction false} TaggedSize(tag: bool, s: set<ClipPath>)
    ensures |set p | p in s :: (tag, p)| == |s|
  {
    if s != {} {
      var x :| x in s;
      TaggedSize(tag, s - {x});
      assert (set p | p in s :: (tag, p)) == (set p | p in s - {x} :: (tag, p)) + {(tag, x)};
    }
  }

  lemma BlockersBounded(onDisk: set<ClipPath>, reserved: set<ClipPath>)
    ensures |Blockers(onDisk, reserved)| == |onDisk| + |reserved|
  {
    var d := set p | p in onDisk :: (true, p);
    var r := set p | p in reserved :: (false, p);
    TaggedSize(true, onDisk);
    TaggedSize(false, reserved);
    assert d !! r;
    assert |d + r| == |d| + |r|;
  }

  lemma BlockersDiffer(q: Request, onDisk: set<ClipPath>, m: nat, n: nat)
    requires 1 <= m < n
    ensures Blocker(Candidate(q, m), onDisk) != Blocker(Candidate(q, n), onDisk)
  {
    hide RenderFileName, GameFolder;
    CandidatesDiffer(q, m, n);
    var x, y := Candidate(q, m).file, Candidate(q, n).file;
    assert x[|x| - 1] == '4' && y[|y| - 1] == '4';
    EndingsDiffer(x, y);
    EndingsDiffer(y, x);
  }

  lemma EndingsDiffer(x: string, y: string)
    requires x != "" && y != "" && x[|x| - 1] == '4' && y[|y| - 1] == '4'
    ensures x != y + ".part" && x != y + ".part.lock" && x + ".part" != y + ".part.lock"
    ensures x + ".part" == y + ".part" ==> x == y
    ensures x + ".part.lock" == y + ".part.lock" ==> x == y
  {
    var a, b, c, d := x + ".part", y + ".part", x + ".part.lock", y + ".part.lock";
    assert a[|a| - 1] == b[|b| - 1] == 't' && c[|c| - 1] == d[|d| - 1] == 'k';
    if a == b { assert a[..|x|] == b[..|y|]; }
    if c == d { assert c[..|x|] == d[..|y|]; }
  }

  /** If the first `n` candidates are all taken, there are at least `n` taken things. */
  lemma TakenCandidatesBounded(q: Request, onDisk: set<ClipPath>, reserved: set<ClipPath>, n: nat)
    requires forall i | 1 <= i <= n :: Taken(Candidate(q, i), onDisk, reserved)
    ensures n <= |onDisk| + |reserved|
  {
    hide Candidate;
    var f := (i: nat) => Blocker(Candidate(q, i + 1), onDisk);
    forall i, j | 0 <= i < j < n ensures f(i) != f(j) {
      BlockersDiffer(q, onDisk, i + 1, j + 1);
    }
    forall i | 0 <= i < n ensures f(i) in Blockers(onDisk, reserved) {
      assert Taken(Candidate(q, i + 1), onDisk, reserved);
    }
    DistinctValuesBounded(f, n, Blockers(onDisk, reserved));
    BlockersBounded(onDisk, reserved);
  }

  class Controller {
    var reservedPaths: set<ClipPath>

    /** Reserve the candidate with the smallest free index. */
    method NextClipPath(q: Request, onDisk: set<ClipPath>) returns (path: ClipPath, ghost index: nat)
      requires |onDisk| + |reservedPaths| < U32_MAX
      modifies this
      ensures 1 <= index <= |onDisk| + |old(reservedPaths)| + 1
      ensures path == Candidate(q, index) && !Taken(path, onDisk, old(reservedPaths))
      ensures path !in onDisk && path !in old(reservedPaths)
      ensures ClipPath(path.directory, path.file + ".part") !in onDisk
      ensures ClipPath(path.directory, path.file + ".part.lock") !in onDisk
      ensures forall i | 1 <= i < index :: Taken(Candidate(q, i), onDisk, old(reservedPaths))
      ensures forall i | 1 <= i < index ::
                var p := Candidate(q, i);
                p in old(reservedPaths) || exists end | end in {"", ".part", ".part.lock"} ::
                  ClipPath(p.directory, p.file + end) in onDisk
      ensures reservedPaths == old(reservedPaths) + {path}
    {
      hide Candidate;
      var collisionIndex := 1;
      while true
        invariant reservedPaths == old(reservedPaths)
        invariant 1 <= collisionIndex <= |onDisk| + |reservedPaths| + 1
        invariant forall i | 1 <= i < collisionIndex :: Taken(Candidate(q, i), onDisk, reservedPaths)
        decreases |onDisk| + |reservedPaths| + 1 - collisionIndex
      {
        var candidate := Candidate(q, collisionIndex);
        if !Taken(candidate, onDisk, reservedPaths) {
          reservedPaths := reservedPaths + {candidate};
          forall i | 1 <= i < collisionIndex
            ensures Candidate(q, i) in old(reservedPaths) || exists end | end in {"", ".part", ".part.lock"} ::
                      ClipPath(Candidate(q, i).directory, Candidate(q, i).file + end) in onDisk
          {
            TakenMeans(Candidate(q, i), onDisk, old(reservedPaths));
          }
          return candidate, collisionIndex;
        }
        TakenCandidatesBounded(q, onDisk, reservedPaths, collisionIndex);
        collisionIndex := Min(collisionIndex + 1, U32_MAX);
      }
    }
  }
}
