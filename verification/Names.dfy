/**
 * Windows file-name components: the controller's sanitizer, which repairs a name, and the
 * library's validator, which rejects one.
 */
module Names {
  import opened Common
  import opened Text

  const INVALID: seq<char> := ['<', '>', ':', '"', '|', '?', '*', '/', '\\']

  const RESERVED: seq<string> := [
    "CON", "PRN", "AUX", "NUL", "COM1", "COM2", "COM3", "COM4", "COM5", "COM6", "COM7", "COM8",
    "COM9", "LPT1", "LPT2", "LPT3", "LPT4", "LPT5", "LPT6", "LPT7", "LPT8", "LPT9"]

  const UNCATEGORIZED: string := "Uncategorized"
  const CLIP_FALLBACK: string := "Clip"
  const MAX_GAME_FOLDER_LENGTH: nat := 64

  predicate BadCharacter(c: char) {
    IsControl(c) || c in INVALID
  }

  /** The name is reserved when the part before its first dot is a device name, in any case. */
  predicate IsReserved(name: string) {
    Upper(Before(name, '.')) in RESERVED
  }

  predicate IsDotOrSpace(c: char) {
    c == '.' || c == ' '
  }

  lemma ReservedShape(name: string)
    requires IsReserved(name)
    ensures 3 <= |Before(name, '.')| <= 4
    ensures 3 <= |name| && ('a' <= name[0] <= 'z' || 'A' <= name[0] <= 'Z')
  {
    var stem := Before(name, '.');
    DeviceWord(Upper(stem));
    hide IsReserved;
    assert Upper(stem)[0] == UpperChar(stem[0]);
    assert stem[0] == name[0];
  }

  lemma DeviceWord(word: string)
    requires word in RESERVED
    ensures 3 <= |word| <= 4 && 'A' <= word[0] <= 'Z'
  {
  }

  // ---------------------------------------------------------------------------
  // The validator.

  datatype NameError = EmptyName | DotLike | InvalidCharacter | ReservedName

  function ValidateName(name: string): Result<(), NameError> {
    if name == "" then Err(EmptyName)
    else if name == "." || name == ".." || IsDotOrSpace(name[|name| - 1]) then Err(DotLike)
    else if exists c :: c in name && BadCharacter(c) then Err(InvalidCharacter)
    else if IsReserved(name) then Err(ReservedName)
    else Ok(())
  }

  // ---------------------------------------------------------------------------
  // The sanitizer.

  function Replaced(s: string): string {
    seq(|s|, i requires 0 <= i < |s| => if BadCharacter(s[i]) then '_' else s[i])
  }

  function DropTrailing(s: string): string {
    if s != [] && IsDotOrSpace(s[|s| - 1]) then DropTrailing(s[..|s| - 1]) else s
  }

  function Guarded(s: string): string {
    if IsReserved(s) then "_" + s else s
  }

  function Sanitized(value: string, fallback: string): string {
    var s := DropTrailing(Replaced(value));
    if s == "" then fallback else Guarded(s)
  }

  method SanitizeWindowsComponent(value: string, fallback: string) returns (r: string)
    ensures r == Sanitized(value, fallback)
  {
    var sanitized := Replaced(value);
    while sanitized != [] && IsDotOrSpace(sanitized[|sanitized| - 1])
      invariant DropTrailing(sanitized) == DropTrailing(Replaced(value))
      decreases |sanitized|
    {
      sanitized := sanitized[..|sanitized| - 1];
    }
    if sanitized == "" {
      return fallback;
    }
    if IsReserved(sanitized) {
      sanitized := "_" + sanitized;
    }
    return sanitized;
  }

  lemma {:induction false} DropTrailingShape(s: string)
    ensures var t := DropTrailing(s);
            && |t| <= |s| && t == s[..|t|]
            && (t != [] ==> !IsDotOrSpace(t[|t| - 1]))
            && (|t| < |s| ==> forall i | |t| <= i < |s| :: IsDotOrSpace(s[i]))
  {
    if s != [] && IsDotOrSpace(s[|s| - 1]) {
      DropTrailingShape(s[..|s| - 1]);
    }
  }

  /** A guarded name that holds no bad character and does not end in a dot or space is valid. */
  lemma GuardedIsValid(s: string)
    requires s != "" && !IsDotOrSpace(s[|s| - 1]) && forall c | c in s :: !BadCharacter(c)
    ensures ValidateName(Guarded(s)).Ok?
  {
    if IsReserved(s) {
      var g := "_" + s;
      ReservedShape(s);
      assert !BadCharacter('_');
      assert g[0] == '_' && g[|g| - 1] == s[|s| - 1];
      if IsReserved(g) {
        ReservedShape(g);
      }
    }
  }

  /** The sanitizer leaves a name alone exactly when the validator accepts it, and its output is always accepted. */
  lemma SanitizerMeetsValidator(name: string, fallback: string)
    requires ValidateName(fallback).Ok?
    ensures Sanitized(name, fallback) == name <==> ValidateName(name).Ok?
    ensures ValidateName(Sanitized(name, fallback)).Ok?
    ensures Sanitized(Sanitized(name, fallback), fallback) == Sanitized(name, fallback)
  {
    SanitizedIsValid(name, fallback);
    ValidIsFixed(Sanitized(name, fallback), fallback);
    if ValidateName(name).Ok? {
      ValidIsFixed(name, fallback);
    }
  }

  lemma SanitizedIsValid(name: string, fallback: string)
    requires ValidateName(fallback).Ok?
    ensures ValidateName(Sanitized(name, fallback)).Ok?
  {
    var r := Replaced(name);
    var s := DropTrailing(r);
    DropTrailingShape(r);
    if s != "" {
      assert !BadCharacter('_');
      forall c | c in s ensures !BadCharacter(c) {
        assert c in r;
      }
      GuardedIsValid(s);
    }
  }

  lemma ValidIsFixed(name: string, fallback: string)
    requires ValidateName(name).Ok?
    ensures Sanitized(name, fallback) == name
  {
    forall i | 0 <= i < |name| ensures !BadCharacter(name[i]) {
      assert name[i] in name;
    }
    assert Replaced(name) == name;
  }

  // ---------------------------------------------------------------------------
  // Game folders.

  function GameFolder(game: Option<string>): string {
    match game
    case None => UNCATEGORIZED
    case Some(name) =>
      if Trim(name) == "" then UNCATEGORIZED else
      var sanitized := Sanitized(Trim(name), UNCATEGORIZED);
      Sanitized(sanitized[..Min(|sanitized|, MAX_GAME_FOLDER_LENGTH)], UNCATEGORIZED)
  }

  lemma PlainWordIsValid(word: string)
    requires |word| >= 4 && forall c | c in word :: 'a' <= c <= 'z' || 'A' <= c <= 'Z'
    requires Upper(word) !in RESERVED
    ensures ValidateName(word).Ok?
  {
    forall c | c in word ensures !BadCharacter(c) && !IsDotOrSpace(c) {
    }
    assert word[|word| - 1] in word;
    BeforeUnique(word, word, '.');
  }

  lemma FallbacksAreValid()
    ensures ValidateName(UNCATEGORIZED).Ok? && ValidateName(CLIP_FALLBACK).Ok?
  {
    PlainWordIsValid(UNCATEGORIZED);
    assert Upper(CLIP_FALLBACK)[1] == 'L';
    PlainWordIsValid(CLIP_FALLBACK);
  }

  /**
   * Cutting a valid name at the limit and sanitizing again never exceeds the limit: a reserved name only
   * appears after trailing characters went.
   */
  lemma TruncatedNameFits(s: string, limit: nat)
    requires ValidateName(s).Ok? && limit >= |UNCATEGORIZED|
    ensures |Sanitized(s[..Min(|s|, limit)], UNCATEGORIZED)| <= limit
  {
    var cut := s[..Min(|s|, limit)];
    if |s| <= limit {
      assert cut == s;
      ValidIsFixed(s, UNCATEGORIZED);
    } else {
      DropTrailingShape(Replaced(cut));
      forall i | 0 <= i < |cut| ensures Replaced(cut)[i] == s[i] {
        assert s[i] in s;
      }
      assert Replaced(cut) == cut;
      LongPrefixReserved(s, limit);
      hide ValidateName, IsReserved, Replaced;
      assert |DropTrailing(cut)| == limit ==> DropTrailing(cut) == cut;
    }
  }

  /** A prefix longer than a device name is reserved only with the whole name. */
  lemma LongPrefixReserved(s: string, limit: nat)
    requires 4 < limit <= |s| && !IsReserved(s)
    ensures !IsReserved(s[..limit])
  {
    var cut := s[..limit];
    var stem := Before(cut, '.');
    if |stem| < |cut| {
      assert s[|stem|] == cut[|stem|] && s[..|stem|] == stem;
      BeforeUnique(s, stem, '.');
    } else {
      assert |Upper(stem)| > 4;
    }
  }

  /** A game folder is a valid name of at most 64 characters, whatever the game is called. */
  lemma GameFolderIsValidAndShort(game: Option<string>)
    ensures ValidateName(GameFolder(game)).Ok?
    ensures |GameFolder(game)| <= MAX_GAME_FOLDER_LENGTH
  {
    FallbacksAreValid();
    if game.Some? && Trim(game.value) != "" {
      var s := Sanitized(Trim(game.value), UNCATEGORIZED);
      SanitizedIsValid(Trim(game.value), UNCATEGORIZED);
      SanitizedIsValid(s[..Min(|s|, MAX_GAME_FOLDER_LENGTH)], UNCATEGORIZED);
      TruncatedNameFits(s, MAX_GAME_FOLDER_LENGTH);
    }
  }

  /** The name up to its last character that is no dot or space, with every bad character replaced. */
  function Cleaned(value: string, n: nat): string
    requires n <= |value|
  {
    seq(n, i requires 0 <= i < n =>
      if IsControl(value[i]) || value[i] in "<>:\"|?*/\\" then '_' else value[i])
  }

  /**
   * Sanitizing changes nothing else: it replaces each bad character, drops dots and spaces at the
   * end, marks a device name, and falls back only when nothing is left.
   */
  lemma SanitizedIsCleaned(value: string, n: nat, fallback: string)
    requires n <= |value| && (n > 0 ==> value[n - 1] != '.' && value[n - 1] != ' ')
    requires forall i | n <= i < |value| :: value[i] == '.' || value[i] == ' '
    ensures Sanitized(value, fallback) ==
            if n == 0 then fallback
            else if IsReserved(Cleaned(value, n)) then "_" + Cleaned(value, n)
            else Cleaned(value, n)
  {
    hide IsReserved;
    var r := Replaced(value);
    assert forall i | 0 <= i < |value| :: IsDotOrSpace(r[i]) == IsDotOrSpace(value[i]);
    DropTrailingAt(r, n);
    assert r[..n] == Cleaned(value, n);
  }

  lemma {:induction false} DropTrailingAt(s: string, n: nat)
    requires n <= |s| && (n > 0 ==> !IsDotOrSpace(s[n - 1])) && forall i | n <= i < |s| :: IsDotOrSpace(s[i])
    ensures DropTrailing(s) == s[..n]
  {
    if |s| > n {
      DropTrailingAt(s[..|s| - 1], n);
      assert s[..|s| - 1][..n] == s[..n];
    } else {
      assert s[..n] == s;
    }
  }

  /** A game keeps its sanitized name as its folder while that is short enough, and is uncategorized without one. */
  lemma GameFolderKeepsName(game: Option<string>)
    ensures game.None? || Trim(game.value) == "" ==> GameFolder(game) == "Uncategorized"
    ensures game.Some? && Trim(game.value) != "" ==>
              var s := Sanitized(Trim(game.value), "Uncategorized");
              GameFolder(game) == if |s| <= 64 then s else Sanitized(s[..64], "Uncategorized")
    ensures game.Some? && ValidateName(Trim(game.value)).Ok? && |Trim(game.value)| <= 64 ==>
              GameFolder(game) == Trim(game.value)
  {
    if game.Some? && Trim(game.value) != "" {
      var name := Trim(game.value);
      var s := Sanitized(name, UNCATEGORIZED);
      FallbacksAreValid();
      SanitizedIsValid(name, UNCATEGORIZED);
      ValidIsFixed(s, UNCATEGORIZED);
      if ValidateName(name).Ok? { ValidIsFixed(name, UNCATEGORIZED); }
      assert |s| <= 64 ==> s[..|s|] == s;
      hide Sanitized, ValidateName;
    }
  }

  /** A name is reserved exactly when what comes before its first dot, or all of it, is a device name in any case. */
  lemma ReservedExactlyWhen(stem: string, rest: string)
    requires '.' !in stem
    ensures IsReserved(stem) <==> Upper(stem) in RESERVED
    ensures IsReserved(stem + "." + rest) <==> Upper(stem) in RESERVED
  {
    hide Upper, Before;
    BeforeUnique(stem, stem, '.');
    var name := stem + "." + rest;
    assert name[..|stem|] == stem;
    BeforeUnique(name, stem, '.');
  }

  /** A name is valid exactly when it is not empty, ends in no dot or space, and has no bad character or device name. */
  lemma ValidExactlyWhen(name: string)
    ensures ValidateName(name).Ok? <==>
            && name != "" && name[|name| - 1] != '.' && name[|name| - 1] != ' '
            && (forall i | 0 <= i < |name| :: !IsControl(name[i]) && name[i] !in "<>:\"|?*/\\")
            && !IsReserved(name)
  {
    hide IsReserved, IsControl;
    assert forall i | 0 <= i < |name| :: name[i] in name;
  }
}
