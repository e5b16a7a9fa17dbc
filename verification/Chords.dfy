/** Hotkey chords: parsing to a canonical form. */
module Chords {
  import opened Common
  import opened Text

  datatype ChordError =
    | Empty
    | MissingKey
    | DuplicateModifier(name: string)
    | UnknownToken(token: string)

  const MODIFIER_ORDER: seq<string> := ["CTRL", "ALT", "SHIFT", "WIN"]

  const NAMED_KEYS: seq<string> := ["UP", "DOWN", "LEFT", "RIGHT", "SPACE", "TAB", "ENTER", "ESC"]

  /** Which of the four modifiers are held, in `MODIFIER_ORDER`. */
  type Modifiers = m: seq<bool> | |m| == 4 witness [false, false, false, false]

  function ModifierRank(token: string): (r: Option<nat>)
    ensures r.Some? <==> token in MODIFIER_ORDER
    ensures r.Some? ==> r.value < 4 && MODIFIER_ORDER[r.value] == token
  {
    if token == MODIFIER_ORDER[0] then Some(0)
    else if token == MODIFIER_ORDER[1] then Some(1)
    else if token == MODIFIER_ORDER[2] then Some(2)
    else if token == MODIFIER_ORDER[3] then Some(3)
    else None
  }

  predicate IsAlphanumeric(c: char) {
    IsDigit(c) || 'A' <= c <= 'Z' || 'a' <= c <= 'z'
  }

  predicate IsValidKey(token: string) {
    if |token| == 1 && IsAlphanumeric(token[0]) then true
    else if token != "" && token[0] == 'F' && ParseUnsigned(token[1..], U32_MAX).Some? then
      1 <= ParseUnsigned(token[1..], U32_MAX).value <= 24
    else token in NAMED_KEYS
  }

  // ---------------------------------------------------------------------------
  // The parser.

  function Tokens(input: string): seq<string> {
    var parts := Split(Trim(input), '+');
    seq(|parts|, i requires 0 <= i < |parts| => Upper(Trim(parts[i])))
  }

  /** Fold the tokens into the modifiers held and the key seen so far. */
  function ScanTokens(tokens: seq<string>, held: Modifiers, key: Option<string>)
    : Result<(Modifiers, Option<string>), ChordError>
  {
    if tokens == [] then Ok((held, key)) else
    var token := tokens[0];
    if token == "" then Err(UnknownToken("")) else
    match ModifierRank(token)
    case Some(rank) =>
      if held[rank] then Err(DuplicateModifier(MODIFIER_ORDER[rank]))
      else ScanTokens(tokens[1..], held[rank := true], key)
    case None =>
      if key.Some? then Err(UnknownToken(token))
      else ScanTokens(tokens[1..], held, Some(token))
  }

  function HeldNames(held: Modifiers, rank: nat): seq<string>
    requires rank <= 4
    decreases 4 - rank
  {
    if rank == 4 then []
    else (if held[rank] then [MODIFIER_ORDER[rank]] else []) + HeldNames(held, rank + 1)
  }

  function Render(held: Modifiers, key: string): string {
    Join(HeldNames(held, 0) + [key], "+")
  }

  function Normalized(input: string): Result<string, ChordError> {
    if Trim(input) == "" then Err(Empty) else
    match ScanTokens(Tokens(input), [false, false, false, false], None)
    case Err(e) => Err(e)
    case Ok((held, key)) =>
      if key.None? then Err(MissingKey)
      else if !IsValidKey(key.value) then Err(UnknownToken(key.value))
      else Ok(Render(held, key.value))
  }

  method NormalizeChord(input: string) returns (r: Result<string, ChordError>)
    ensures r == Normalized(input)
  {
    var trimmed := Trim(input);
    if trimmed == "" { return Err(Empty); }
    var modifiers := new bool[4](_ => false);
    var key: Option<string> := None;
    var raw := Split(trimmed, '+');
    ghost var all := Tokens(input);
    assert modifiers[..] == [false, false, false, false];
    assert all[0..] == all;
    for i := 0 to |raw|
      invariant |all| == |raw|
      invariant ScanTokens(all, [false, false, false, false], None) == ScanTokens(all[i..], modifiers[..], key)
    {
      var token := Upper(Trim(raw[i]));
      assert all[i..][0] == token && all[i..][1..] == all[i + 1..];
      if token == "" { return Err(UnknownToken("")); }
      var rank := ModifierRank(token);
      if rank.Some? {
        if modifiers[rank.value] { return Err(DuplicateModifier(MODIFIER_ORDER[rank.value])); }
        ghost var before := modifiers[..];
        modifiers[rank.value] := true;
        assert modifiers[..] == before[rank.value := true];
      } else if key.Some? {
        return Err(UnknownToken(token));
      } else {
        key := Some(token);
      }
    }
    if key.None? { return Err(MissingKey); }
    if !IsValidKey(key.value) { return Err(UnknownToken(key.value)); }
    return Ok(Render(modifiers[..], key.value));
  }

  // ---------------------------------------------------------------------------
  // What a chord means.

  /** The held modifiers as a bag, each once. */
  function HeldBag(held: Modifiers): multiset<string> {
    multiset(HeldNames(held, 0))
  }

  function KeyBag(key: Option<string>): multiset<string> {
    if key.Some? then multiset{key.value} else multiset{}
  }

  /** The tokens of the input, in any order, are exactly the held modifiers, once each, and one valid key. */
  predicate Denotes(input: string, held: Modifiers, key: string) {
    && multiset(Tokens(input)) == HeldBag(held) + multiset{key}
    && key !in MODIFIER_ORDER
    && IsValidKey(key)
  }

  lemma OrderDistinct()
    ensures forall i, j | 0 <= i < j < 4 :: MODIFIER_ORDER[i] != MODIFIER_ORDER[j]
  {
    assert "CTRL"[0] == 'C' && "ALT"[0] == 'A' && "SHIFT"[0] == 'S' && "WIN"[0] == 'W';
  }

  /** Each held modifier from `rank` on once, and nothing else. */
  ghost predicate CountsFrom(bag: multiset<string>, held: Modifiers, rank: nat) {
    && (forall i | 0 <= i < 4 :: bag[MODIFIER_ORDER[i]] == if i >= rank && held[i] then 1 else 0)
    && (forall t | t !in MODIFIER_ORDER :: t !in bag)
  }

  lemma OneMoreName(rest: multiset<string>, held: Modifiers, rank: nat)
    requires rank < 4 && CountsFrom(rest, held, rank + 1)
    ensures CountsFrom(if held[rank] then multiset{MODIFIER_ORDER[rank]} + rest else rest, held, rank)
  {
    OrderDistinct();
    assert |MODIFIER_ORDER| == 4;
    hide MODIFIER_ORDER;
    var name := MODIFIER_ORDER[rank];
    assert name in MODIFIER_ORDER;
    forall i | 0 <= i < 4
      ensures (multiset{name} + rest)[MODIFIER_ORDER[i]] == rest[MODIFIER_ORDER[i]] + if i == rank then 1 else 0
    {
      assert i == rank <==> MODIFIER_ORDER[i] == name;
    }
  }

  lemma {:induction false} HeldNamesCounts(held: Modifiers, rank: nat)
    requires rank <= 4
    ensures CountsFrom(multiset(HeldNames(held, rank)), held, rank)
    decreases 4 - rank
  {
    if rank < 4 {
      var name, rest := MODIFIER_ORDER[rank], HeldNames(held, rank + 1);
      assert HeldNames(held, rank) == if held[rank] then [name] + rest else rest;
      HeldNamesCounts(held, rank + 1);
      OneMoreName(multiset(rest), held, rank);
      hide *;
      assert multiset([name] + rest) == multiset{name} + multiset(rest);
    }
  }

  lemma HeldBagCounts(held: Modifiers)
    ensures forall i | 0 <= i < 4 :: HeldBag(held)[MODIFIER_ORDER[i]] == if held[i] then 1 else 0
    ensures forall t | t !in MODIFIER_ORDER :: t !in HeldBag(held)
  {
    HeldNamesCounts(held, 0);
  }

  lemma HoldOneMore(held: Modifiers, rank: nat)
    requires rank < 4 && !held[rank]
    ensures HeldBag(held[rank := true]) == HeldBag(held) + multiset{MODIFIER_ORDER[rank]}
  {
    hide HeldBag;
    var more: Modifiers := held[rank := true];
    HeldBagCounts(held);
    HeldBagCounts(more);
    OrderDistinct();
    forall t ensures HeldBag(more)[t] == (HeldBag(held) + multiset{MODIFIER_ORDER[rank]})[t] {
      if t in MODIFIER_ORDER {
        var i :| 0 <= i < 4 && MODIFIER_ORDER[i] == t;
      }
    }
  }

  /** A bag of tokens that is some modifiers, once each, and one other non-empty token. */
  predicate ChordBag(bag: multiset<string>, held: Modifiers, key: string) {
    bag == HeldBag(held) + multiset{key} && key !in MODIFIER_ORDER && key != ""
  }

  /** The scan succeeds with a key exactly on chord bags, and fails on every other bag. */
  lemma {:induction false} ScanMeaning(tokens: seq<string>, held: Modifiers, key: Option<string>)
    requires key.Some? ==> key.value !in MODIFIER_ORDER && key.value != ""
    ensures var bag := multiset(tokens) + HeldBag(held) + KeyBag(key);
            match ScanTokens(tokens, held, key)
            case Ok((h, k)) =>
              && bag == HeldBag(h) + KeyBag(k)
              && (k.Some? ==> k.value !in MODIFIER_ORDER && k.value != "")
            case Err(_) => forall h: Modifiers, k :: !ChordBag(bag, h, k)
  {
    hide HeldBag;
    var bag := multiset(tokens) + HeldBag(held) + KeyBag(key);
    if tokens != [] {
      var token := tokens[0];
      assert tokens == [token] + tokens[1..];
      assert multiset(tokens) == multiset{token} + multiset(tokens[1..]);
      forall h: Modifiers, k | ChordBag(bag, h, k)
        ensures token != ""
        ensures token in MODIFIER_ORDER ==> !held[ModifierRank(token).value]
        ensures token !in MODIFIER_ORDER ==> key.None?
      {
        ChordBagExcludes(bag, token, held, key, h, k);
      }
      match ModifierRank(token) {
        case Some(rank) =>
          if token != "" && !held[rank] {
            HoldOneMore(held, rank);
            ScanMeaning(tokens[1..], held[rank := true], key);
            assert bag == multiset(tokens[1..]) + HeldBag(held[rank := true]) + KeyBag(key);
          }
        case None =>
          if token != "" && key.None? {
            ScanMeaning(tokens[1..], held, Some(token));
            assert bag == multiset(tokens[1..]) + HeldBag(held) + KeyBag(Some(token));
          }
      }
    }
  }

  lemma ChordBagExcludes(
      bag: multiset<string>, token: string, held: Modifiers, key: Option<string>, h: Modifiers, k: string)
    requires multiset{token} + HeldBag(held) + KeyBag(key) <= bag && ChordBag(bag, h, k)
    requires key.Some? ==> key.value !in MODIFIER_ORDER
    ensures token != ""
    ensures token in MODIFIER_ORDER ==> !held[ModifierRank(token).value]
    ensures token !in MODIFIER_ORDER ==> key.None?
  {
    hide HeldBag;
    HeldBagCounts(held);
    HeldBagCounts(h);
    assert bag[token] >= (multiset{token} + HeldBag(held) + KeyBag(key))[token];
    assert key.Some? ==> bag[key.value] >= (multiset{token} + HeldBag(held) + KeyBag(key))[key.value];
    assert token in MODIFIER_ORDER ==> HeldBag(h)[MODIFIER_ORDER[ModifierRank(token).value]] <= 1;
  }

  /** Parsing succeeds on exactly the inputs that denote a chord, and renders that chord. */
  lemma NormalizedIffDenotes(input: string, s: string)
    ensures Normalized(input) == Ok(s) <==>
            exists held: Modifiers, key :: Denotes(input, held, key) && s == Render(held, key)
  {
    hide HeldBag, Tokens, Render, IsValidKey;
    var none: Modifiers := [false, false, false, false];
    var tokens := Tokens(input);
    ScanMeaning(tokens, none, None);
    NothingHeld();
    assert multiset(tokens) + HeldBag(none) + KeyBag(None) == multiset(tokens);
    if Trim(input) == "" {
      BlankInput(input);
    }
    if Normalized(input) == Ok(s) {
      var (held, key) := ScanTokens(tokens, none, None).value;
      assert Denotes(input, held, key.value);
    }
    forall held: Modifiers, key | Denotes(input, held, key) && s == Render(held, key)
      ensures Normalized(input) == Ok(s)
    {
      EmptyIsNoKey();
      assert ChordBag(multiset(tokens), held, key);
      var (h, k) := ScanTokens(tokens, none, None).value;
      SameChord(held, key, h, k);
    }
  }

  lemma NothingHeld()
    ensures HeldBag([false, false, false, false]) == multiset{}
  {
    HeldBagCounts([false, false, false, false]);
  }

  lemma EmptyIsNoKey()
    ensures !IsValidKey("")
  {
  }

  lemma BlankInput(input: string)
    requires Trim(input) == ""
    ensures Tokens(input) == [""]
  {
    assert Split("", '+') == [""];
    assert Upper(Trim("")) == "";
    assert Tokens(input)[0] == "";
  }

  /** The bag determines the chord. */
  lemma SameChord(held: Modifiers, key: string, h: Modifiers, k: Option<string>)
    requires HeldBag(held) + multiset{key} == HeldBag(h) + KeyBag(k)
    requires key !in MODIFIER_ORDER && (k.Some? ==> k.value !in MODIFIER_ORDER)
    ensures held == h && k == Some(key)
  {
    hide HeldBag;
    HeldBagCounts(held);
    HeldBagCounts(h);
    var bag := HeldBag(held) + multiset{key};
    assert bag[key] >= 1;
    assert (HeldBag(h) + KeyBag(k))[key] >= 1;
    forall i | 0 <= i < 4 ensures held[i] == h[i] {
      assert MODIFIER_ORDER[i] in MODIFIER_ORDER;
      assert bag[MODIFIER_ORDER[i]] == (HeldBag(h) + KeyBag(k))[MODIFIER_ORDER[i]];
    }
  }

  // ---------------------------------------------------------------------------
  // Why an input is refused.

  predicate IsModifier(t: string) {
    t in MODIFIER_ORDER
  }

  /** What is wrong with a token, after those before it: it is empty, a modifier once more, or a second key. */
  predicate Offends(tokens: seq<string>, i: nat)
    requires i < |tokens|
  {
    var t := tokens[i];
    || t == ""
    || (IsModifier(t) && t in tokens[..i])
    || (!IsModifier(t) && exists u :: u in tokens[..i] && !IsModifier(u))
  }

  function Complaint(t: string): ChordError {
    if IsModifier(t) then DuplicateModifier(t) else UnknownToken(t)
  }

  /** The modifiers held and the key are those among the tokens. */
  predicate Stand(tokens: seq<string>, held: Modifiers, key: Option<string>) {
    && (forall r | 0 <= r < 4 :: held[r] <==> MODIFIER_ORDER[r] in tokens)
    && (key.Some? ==> key.value in tokens && !IsModifier(key.value))
    && (key.None? ==> forall t | t in tokens :: IsModifier(t))
  }

  /** The scan stops at the first offending token, and complains about it. */
  lemma {:induction false} ScanComplains(tokens: seq<string>, i: nat, held: Modifiers, key: Option<string>)
    requires i <= |tokens| && Stand(tokens[..i], held, key)
    ensures match ScanTokens(tokens[i..], held, key)
            case Ok((h, k)) => (forall j | i <= j < |tokens| :: !Offends(tokens, j)) && Stand(tokens, h, k)
            case Err(e) =>
              exists j :: i <= j < |tokens| && Offends(tokens, j) && e == Complaint(tokens[j])
                          && forall m | i <= m < j :: !Offends(tokens, m)
    decreases |tokens| - i
  {
    if i == |tokens| {
      assert tokens[..i] == tokens;
    } else {
      var t := tokens[i];
      assert tokens[i..][0] == t && tokens[i..][1..] == tokens[i + 1..];
      StandsNext(tokens, i, held, key);
      hide Offends, Stand, IsModifier, Complaint;
      ScanStep(tokens, i, held, key);
      if !Offends(tokens, i) {
        match ModifierRank(t)
        case Some(rank) => ScanComplains(tokens, i + 1, held[rank := true], key);
        case None => ScanComplains(tokens, i + 1, held, Some(t));
      }
    }
  }

  lemma ScanStep(tokens: seq<string>, i: nat, held: Modifiers, key: Option<string>)
    requires i < |tokens| && Stand(tokens[..i], held, key)
    ensures var t := tokens[i];
            ScanTokens(tokens[i..], held, key) ==
            if Offends(tokens, i) then Err(Complaint(t))
            else match ModifierRank(t)
                 case Some(rank) => ScanTokens(tokens[i + 1..], held[rank := true], key)
                 case None => ScanTokens(tokens[i + 1..], held, Some(t))
  {
    StandsNext(tokens, i, held, key);
    assert tokens[i..][0] == tokens[i] && tokens[i..][1..] == tokens[i + 1..];
    assert tokens[i] == "" ==> Offends(tokens, i) && !IsModifier("");
    hide Offends, Stand;
  }

  lemma StandsNext(tokens: seq<string>, i: nat, held: Modifiers, key: Option<string>)
    requires i < |tokens| && Stand(tokens[..i], held, key)
    ensures var t := tokens[i];
            && tokens[..i + 1] == tokens[..i] + [t]
            && match ModifierRank(t)
               case Some(rank) =>
                 && IsModifier(t) && t != "" && MODIFIER_ORDER[rank] == t
                 && (Offends(tokens, i) <==> held[rank])
                 && Stand(tokens[..i + 1], held[rank := true], key)
               case None =>
                 && !IsModifier(t)
                 && (Offends(tokens, i) <==> t == "" || key.Some?)
                 && (key.None? ==> Stand(tokens[..i + 1], held, Some(t)))
  {
    OrderDistinct();
    assert tokens[..i + 1] == tokens[..i] + [tokens[i]];
    assert "CTRL" != "" && "ALT" != "" && "SHIFT" != "" && "WIN" != "";
  }

  /**
   * Why an input is refused: it is blank; or its first offending token is empty, a modifier once
   * more, or a second key; or nothing offends, and there is no key, or none that exists.
   */
  lemma RefusedExactlyWhen(input: string)
    ensures Normalized(input) == Err(Empty) <==> Trim(input) == ""
    ensures Trim(input) != "" && (forall j | 0 <= j < |Tokens(input)| :: !Offends(Tokens(input), j)) ==>
              && (Normalized(input) == Err(MissingKey) <==> forall t | t in Tokens(input) :: IsModifier(t))
              && (forall t | t in Tokens(input) && !IsModifier(t) ::
                    if IsValidKey(t) then Normalized(input).Ok? else Normalized(input) == Err(UnknownToken(t)))
    ensures forall j | 0 <= j < |Tokens(input)| && Offends(Tokens(input), j)
                       && (forall m | 0 <= m < j :: !Offends(Tokens(input), m)) && Trim(input) != "" ::
              Normalized(input) == Err(Complaint(Tokens(input)[j]))
  {
    var tokens := Tokens(input);
    assert tokens[0..] == tokens && tokens[..0] == [];
    hide Tokens, IsValidKey, Offends;
    ScanComplains(tokens, 0, [false, false, false, false], None);
    NoTwoKeys(tokens);
  }

  lemma SecondOffends(tokens: seq<string>, i: nat, j: nat)
    requires i < j < |tokens| && !IsModifier(tokens[i]) && !IsModifier(tokens[j])
    ensures Offends(tokens, j)
  {
    assert tokens[..j][i] in tokens[..j];
  }

  lemma NoTwoKeys(tokens: seq<string>)
    ensures (forall j | 0 <= j < |tokens| :: !Offends(tokens, j)) ==>
              forall t, u | t in tokens && u in tokens && !IsModifier(t) && !IsModifier(u) :: t == u
  {
    if forall j | 0 <= j < |tokens| :: !Offends(tokens, j) {
      forall t, u | t in tokens && u in tokens && !IsModifier(t) && !IsModifier(u) ensures t == u {
        var i :| 0 <= i < |tokens| && tokens[i] == t;
        var j :| 0 <= j < |tokens| && tokens[j] == u;
        if i < j { SecondOffends(tokens, i, j); }
        if j < i { SecondOffends(tokens, j, i); }
      }
    }
  }

  // ---------------------------------------------------------------------------
  // The canonical form.

  predicate PlainToken(t: string) {
    t != "" && Upper(t) == t && forall c | c in t :: c != '+' && !IsWhitespace(c)
  }

  lemma PlainTokenIsTrimmed(t: string)
    requires PlainToken(t)
    ensures Trim(t) == t
  {
    assert t[0] in t && t[|t| - 1] in t;
  }

  lemma ValidKeyCharacters(key: string)
    requires IsValidKey(key) && '+' !in key
    ensures forall c | c in key :: !IsWhitespace(c)
  {
    forall c | c in key ensures !IsWhitespace(c) {
      if |key| == 1 && IsAlphanumeric(key[0]) {
        assert c == key[0];
      } else if key[0] == 'F' && ParseUnsigned(key[1..], U32_MAX).Some? {
        if c != key[0] {
          assert c in key[1..];
          assert key[1] in key;
          assert IsDigit(c);
        }
      } else {
        NamedKeyCharacters(key, c);
      }
    }
  }

  lemma NamedKeyCharacters(key: string, c: char)
    requires key in NAMED_KEYS && c in key
    ensures !IsWhitespace(c)
  {
    var i :| 0 <= i < |NAMED_KEYS| && NAMED_KEYS[i] == key;
    assert forall k | 0 <= k < |key| :: 'A' <= key[k] <= 'Z';
  }

  lemma TokenIsUpperWithoutPlus(input: string, t: string)
    requires t in Tokens(input)
    ensures Upper(t) == t && '+' !in t
  {
    var parts := Split(Trim(input), '+');
    SplitPartsLackSeparator(Trim(input), '+');
    var i :| 0 <= i < |parts| && t == Upper(Trim(parts[i]));
    UpperKeepsPlus(Trim(parts[i]));
    TrimKeepsCharacters(parts[i], '+');
    assert parts[i] in parts;
  }

  lemma ChordTokensArePlain(input: string, held: Modifiers, key: string)
    requires Denotes(input, held, key)
    ensures PlainToken(key)
    ensures forall t | t in HeldNames(held, 0) + [key] :: PlainToken(t)
  {
    hide Tokens, IsValidKey, PlainToken;
    var parts := HeldNames(held, 0) + [key];
    assert key in HeldBag(held) + multiset{key};
    assert key in multiset(Tokens(input));
    TokenIsUpperWithoutPlus(input, key);
    ValidKeyCharacters(key);
    EmptyIsNoKey();
    MakePlain(key);
    HeldBagCounts(held);
    forall t | t in parts ensures PlainToken(t) {
      if t != key {
        assert t in HeldBag(held);
        ModifierIsPlain(t);
      }
    }
  }

  lemma MakePlain(t: string)
    requires t != "" && Upper(t) == t && '+' !in t && forall c | c in t :: !IsWhitespace(c)
    ensures PlainToken(t)
  {
  }

  lemma ModifierIsPlain(t: string)
    requires t in MODIFIER_ORDER
    ensures PlainToken(t)
  {
    assert forall k | 0 <= k < |t| :: 'A' <= t[k] <= 'Z';
  }

  lemma {:induction false} JoinOfPlain(parts: seq<string>)
    requires parts != [] && forall t | t in parts :: PlainToken(t)
    ensures var s := Join(parts, "+");
            s != "" && !IsWhitespace(s[0]) && !IsWhitespace(s[|s| - 1])
  {
    assert PlainToken(parts[0]);
    assert parts[0][0] in parts[0] && parts[0][|parts[0]| - 1] in parts[0];
    if |parts| > 1 {
      JoinOfPlain(parts[1..]);
    }
  }

  /** The canonical string denotes the chord it was rendered from. */
  lemma RenderedDenotes(input: string, held: Modifiers, key: string)
    requires Denotes(input, held, key)
    ensures Denotes(Render(held, key), held, key)
  {
    hide IsValidKey, PlainToken, HeldNames, Tokens;
    var parts := HeldNames(held, 0) + [key];
    ChordTokensArePlain(input, held, key);
    TokensOfJoined(parts);
    assert multiset(parts) == HeldBag(held) + multiset{key};
  }

  lemma TokensOfJoined(parts: seq<string>)
    requires parts != [] && forall t | t in parts :: PlainToken(t)
    ensures Tokens(Join(parts, "+")) == parts
  {
    hide PlainToken, Join;
    var s := Join(parts, "+");
    JoinOfPlain(parts);
    assert Trim(s) == s;
    forall t | t in parts ensures '+' !in t && Upper(Trim(t)) == t {
      PlainTokenParts(t);
    }
    SplitJoin(parts, '+');
    forall i | 0 <= i < |parts| ensures Tokens(s)[i] == parts[i] {
      assert parts[i] in parts;
    }
  }

  lemma PlainTokenParts(t: string)
    requires PlainToken(t)
    ensures '+' !in t && Upper(Trim(t)) == t
  {
    PlainTokenIsTrimmed(t);
  }

  /** Normalizing twice is normalizing once. */
  lemma NormalizeIdempotent(input: string)
    requires Normalized(input).Ok?
    ensures Normalized(Normalized(input).value) == Normalized(input)
  {
    hide Denotes, Normalized, Render;
    var s := Normalized(input).value;
    NormalizedIffDenotes(input, s);
    var held: Modifiers, key :| Denotes(input, held, key) && s == Render(held, key);
    RenderedDenotes(input, held, key);
    NormalizedIffDenotes(s, s);
  }

  /** Two inputs have one canonical form exactly when they denote one chord: order, case and spacing do not matter. */
  lemma NormalizeCanonical(a: string, b: string)
    requires Normalized(a).Ok? && Normalized(b).Ok?
    ensures Normalized(a) == Normalized(b) <==>
            exists held: Modifiers, key :: Denotes(a, held, key) && Denotes(b, held, key)
  {
    hide Denotes, Normalized, Render;
    NormalizedIffDenotes(a, Normalized(a).value);
    NormalizedIffDenotes(b, Normalized(b).value);
    if Normalized(a) == Normalized(b) {
      var held: Modifiers, key :| Denotes(a, held, key) && Normalized(a).value == Render(held, key);
      var h: Modifiers, k :| Denotes(b, h, k) && Normalized(b).value == Render(h, k);
      RenderedDenotes(a, held, key);
      RenderedDenotes(b, h, k);
      DenotationUnique(Normalized(a).value, held, key, h, k);
      assert Denotes(a, held, key) && Denotes(b, held, key);
    }
    forall held: Modifiers, key | Denotes(a, held, key) && Denotes(b, held, key)
      ensures Normalized(a) == Normalized(b)
    {
      NormalizedIffDenotes(a, Render(held, key));
      NormalizedIffDenotes(b, Render(held, key));
    }
  }

  lemma DenotationUnique(input: string, held: Modifiers, key: string, h: Modifiers, k: string)
    requires Denotes(input, held, key) && Denotes(input, h, k)
    ensures held == h && key == k
  {
    SameChord(held, key, h, Some(k));
  }

  // ---------------------------------------------------------------------------
  // The hotkey that a chord registers.

  const U16_MAX: nat := 0xFFFF

  /** The virtual-key codes of `NAMED_KEYS`. */
  const NAMED_CODES: seq<nat> := [0x26, 0x28, 0x25, 0x27, 0x20, 0x09, 0x0D, 0x1B]

  function NamedRank(token: string): (r: Option<nat>)
    ensures r.Some? ==> r.value < 8 && NAMED_KEYS[r.value] == token
    ensures r.Some? <==> token in NAMED_KEYS
  {
    if token == NAMED_KEYS[0] then Some(0)
    else if token == NAMED_KEYS[1] then Some(1)
    else if token == NAMED_KEYS[2] then Some(2)
    else if token == NAMED_KEYS[3] then Some(3)
    else if token == NAMED_KEYS[4] then Some(4)
    else if token == NAMED_KEYS[5] then Some(5)
    else if token == NAMED_KEYS[6] then Some(6)
    else if token == NAMED_KEYS[7] then Some(7)
    else None
  }

  /** The number of a function key. */
  function FunctionNumber(key: string): (r: Option<nat>)
    ensures r.Some? ==> 1 <= r.value <= 24
  {
    if key == "" || key[0] != 'F' then None else
    var n := ParseUnsigned(key[1..], U16_MAX);
    if n.Some? && 1 <= n.value <= 24 then n else None
  }

  function VirtualKey(key: string): Option<nat> {
    if |key| == 1 && (IsDigit(key[0]) || 'A' <= key[0] <= 'Z') then Some(key[0] as nat)
    else if FunctionNumber(key).Some? then Some(0x6F + FunctionNumber(key).value)
    else if NamedRank(key).Some? then Some(NAMED_CODES[NamedRank(key).value])
    else None
  }

  /** The modifiers and the last other token of a normal form. */
  function NativeTokens(tokens: seq<string>, held: Modifiers, key: Option<string>): (Modifiers, Option<string>) {
    if tokens == [] then (held, key) else
    match ModifierRank(tokens[0])
    case Some(rank) => NativeTokens(tokens[1..], held[rank := true], key)
    case None => NativeTokens(tokens[1..], held, Some(tokens[0]))
  }

  /** What is registered with the system: the modifiers and the virtual key. */
  function NativeChord(input: string): Option<(Modifiers, nat)> {
    var normalized := Normalized(input);
    if normalized.Err? then None else
    var (held, key) := NativeTokens(Split(normalized.value, '+'), [false, false, false, false], None);
    if key.None? || VirtualKey(key.value).None? then None else Some((held, VirtualKey(key.value).value))
  }

  lemma {:induction false} NativeTokensOf(held: Modifiers, rank: nat, so: Modifiers, key: string)
    requires rank <= 4 && key !in MODIFIER_ORDER
    requires forall i | 0 <= i < 4 :: so[i] == (i < rank && held[i])
    ensures NativeTokens(HeldNames(held, rank) + [key], so, None) == (held, Some(key))
    decreases 4 - rank
  {
    var tokens := HeldNames(held, rank) + [key];
    if rank == 4 {
      assert tokens == [key] && tokens[1..] == [];
      assert so == held;
    } else if held[rank] {
      OrderDistinct();
      assert tokens[0] == MODIFIER_ORDER[rank] && tokens[1..] == HeldNames(held, rank + 1) + [key];
      assert ModifierRank(tokens[0]) == Some(rank);
      NativeTokensOf(held, rank + 1, so[rank := true], key);
    } else {
      assert HeldNames(held, rank) == HeldNames(held, rank + 1);
      NativeTokensOf(held, rank + 1, so, key);
    }
  }

  lemma RenderSplits(input: string, held: Modifiers, key: string)
    requires Denotes(input, held, key)
    ensures Split(Render(held, key), '+') == HeldNames(held, 0) + [key]
  {
    ChordTokensArePlain(input, held, key);
    hide Denotes, HeldNames, Split, Join;
    SplitJoin(HeldNames(held, 0) + [key], '+');
  }

  lemma DenotedForm(input: string, held: Modifiers, key: string)
    requires Denotes(input, held, key)
    ensures Normalized(input) == Ok(Render(held, key)) && IsValidKey(key) && PlainToken(key) && key !in MODIFIER_ORDER
  {
    ChordTokensArePlain(input, held, key);
    assert IsValidKey(key) && key !in MODIFIER_ORDER;
    hide *;
    NormalizedIffDenotes(input, Render(held, key));
  }

  /** Every chord that can be parsed can be registered, with its own modifiers and the code of its key. */
  lemma NativeOfDenoted(input: string, held: Modifiers, key: string)
    requires Denotes(input, held, key)
    ensures VirtualKey(key).Some? && NativeChord(input) == Some((held, VirtualKey(key).value))
  {
    hide *;
    DenotedForm(input, held, key);
    RenderSplits(input, held, key);
    ValidKeyHasCode(key);
    NativeTokensOf(held, 0, [false, false, false, false], key);
    NativeIs(input, Render(held, key), held, key);
  }

  lemma NativeIs(input: string, normalized: string, held: Modifiers, key: string)
    requires Normalized(input) == Ok(normalized) && VirtualKey(key).Some?
    requires NativeTokens(Split(normalized, '+'), [false, false, false, false], None) == (held, Some(key))
    ensures NativeChord(input) == Some((held, VirtualKey(key).value))
  {
    hide Normalized, NativeTokens, Split, VirtualKey;
  }

  lemma ValidKeyHasCode(key: string)
    requires IsValidKey(key) && PlainToken(key)
    ensures VirtualKey(key).Some?
    ensures FunctionNumber(key).Some? ==>
              |key| > 1 && AllDigits(key[1..]) && FunctionNumber(key).value == Value(key[1..])
  {
    if |key| == 1 {
      assert Upper(key)[0] == UpperChar(key[0]) == key[0];
      assert key[1..] == "";
    } else {
      assert key[1] in key;
    }
  }

  /** Characters, function keys and named keys have codes of their own. */
  lemma CodeClasses(key: string)
    requires IsValidKey(key) && PlainToken(key)
    ensures var v, n, r := VirtualKey(key), FunctionNumber(key), NamedRank(key);
            || (n.None? && |key| == 1 && v == Some(key[0] as nat) && 0x30 <= v.value <= 0x5A)
            || (n.Some? && v == Some(0x6F + n.value))
            || (n.None? && r.Some? && v == Some(NAMED_CODES[r.value]) && v.value < 0x30)
  {
    ValidKeyHasCode(key);
    hide ParseUnsigned, Value, PlainToken, NamedRank, FunctionNumber;
  }

  /** Two keys have one code exactly when they are one token, or two spellings of one function key. */
  lemma SameCode(a: string, b: string)
    requires IsValidKey(a) && IsValidKey(b) && PlainToken(a) && PlainToken(b)
    ensures VirtualKey(a) == VirtualKey(b) <==>
            a == b || (FunctionNumber(a).Some? && FunctionNumber(a) == FunctionNumber(b))
  {
    CodeClasses(a);
    CodeClasses(b);
    hide *;
    if NamedRank(a).Some? && NamedRank(b).Some? {
      var i, j := NamedRank(a).value, NamedRank(b).value;
      CodesDiffer(i, j);
      assert i == j ==> a == NAMED_KEYS[i] == b;
    }
    assert |a| == 1 && |b| == 1 && a[0] == b[0] ==> a == b;
  }

  lemma CodesDiffer(i: nat, j: nat)
    requires i < 8 && j < 8
    ensures |NAMED_CODES| == 8 && |NAMED_KEYS| == 8
    ensures NAMED_CODES[i] == NAMED_CODES[j] <==> i == j
  {
  }

  /** The leading zeros of a function key's number. */
  function KeyZeros(key: string): nat {
    if FunctionNumber(key).Some? && key != "" then LeadingZeros(key[1..]) else 0
  }

  /** A function key's token is its number and its leading zeros. */
  lemma SpellingsDiffer(a: string, b: string)
    requires IsValidKey(a) && IsValidKey(b) && PlainToken(a) && PlainToken(b)
    requires FunctionNumber(a).Some? && FunctionNumber(a) == FunctionNumber(b)
    ensures a == b <==> KeyZeros(a) == KeyZeros(b)
  {
    ValidKeyHasCode(a);
    ValidKeyHasCode(b);
    assert a == ['F'] + a[1..] && b == ['F'] + b[1..];
    hide IsValidKey, PlainToken, FunctionNumber, Value, VirtualKey;
    LeadingZerosAndValue(a[1..]);
    LeadingZerosAndValue(b[1..]);
  }

  /**
   * Two inputs have one normal form if and only if they register one hotkey and write its function
   * key with as many leading zeros.
   */
  lemma OneHotkeyOneFormExactlyWhen(
      a: string, held: Modifiers, key: string, b: string, h: Modifiers, k: string)
    requires Denotes(a, held, key) && Denotes(b, h, k)
    ensures Normalized(a) == Normalized(b) <==> NativeChord(a) == NativeChord(b) && KeyZeros(key) == KeyZeros(k)
  {
    NativeOfDenoted(a, held, key);
    NativeOfDenoted(b, h, k);
    ChordTokensArePlain(a, held, key);
    ChordTokensArePlain(b, h, k);
    SameForm(a, held, key, b, h, k);
    assert IsValidKey(key) && IsValidKey(k);
    hide *;
    SameCode(key, k);
    if FunctionNumber(key).Some? && FunctionNumber(key) == FunctionNumber(k) { SpellingsDiffer(key, k); }
  }

  /** A hotkey written twice whose second spelling is not found to be a duplicate. */
  lemma LeadingZeroHidesDuplicate()
    ensures Normalized("F1") == Ok("F1") && Normalized("F01") == Ok("F01")
    ensures NativeChord("F1") == NativeChord("F01") && NativeChord("F1").Some?
  {
    var none: Modifiers := [false, false, false, false];
    FunctionKeyDenotes("F1");
    FunctionKeyDenotes("F01");
    OneHotkeyOneFormExactlyWhen("F1", none, "F1", "F01", none, "F01");
  }

  lemma FunctionKeyDenotes(key: string)
    requires key == "F1" || key == "F01"
    ensures var none: Modifiers := [false, false, false, false];
            Denotes(key, none, key) && Normalized(key) == Ok(key) && Render(none, key) == key
            && NativeChord(key) == Some((none, 0x70))
  {
    var none: Modifiers := [false, false, false, false];
    FunctionKeyTokens(key);
    FunctionKeyIsValid(key);
    NothingHeld();
    assert Render(none, key) == key;
    hide *;
    KeyAloneIsDenoted(key, none);
    NormalizedIffDenotes(key, Render(none, key));
    NativeOfDenoted(key, none, key);
  }

  lemma KeyAloneIsDenoted(key: string, none: Modifiers)
    requires Tokens(key) == [key] && IsValidKey(key) && key !in MODIFIER_ORDER && HeldBag(none) == multiset{}
    ensures Denotes(key, none, key)
  {
    hide Tokens, IsValidKey, HeldBag;
  }

  lemma FunctionKeyTokens(key: string)
    requires key == "F1" || key == "F01"
    ensures Tokens(key) == [key]
  {
    BeforeUnique(key, key, '+');
    assert Split(key, '+') == [key];
    assert Upper(key) == key && Trim(key) == key;
  }

  lemma FunctionKeyIsValid(key: string)
    requires key == "F1" || key == "F01"
    ensures IsValidKey(key) && key !in MODIFIER_ORDER && VirtualKey(key) == Some(0x70)
  {
    var digits := key[1..];
    assert digits == "1" || digits == "01";
    assert Value("") == 0 && Value("0") == 0;
    assert "1"[..0] == "" && "01"[..1] == "0";
    assert Value(digits) == 1;
  }

  lemma SameForm(a: string, held: Modifiers, key: string, b: string, h: Modifiers, k: string)
    requires Denotes(a, held, key) && Denotes(b, h, k)
    ensures Normalized(a) == Normalized(b) <==> held == h && key == k
  {
    NormalizedIffDenotes(a, Render(held, key));
    NormalizedIffDenotes(b, Render(h, k));
    hide Normalized;
    if Render(held, key) == Render(h, k) {
      RenderedDenotes(a, held, key);
      RenderedDenotes(b, h, k);
      hide Denotes, Render;
      DenotationUnique(Render(held, key), held, key, h, k);
    }
  }

  /** The modifiers are written in one order, the key last. */
  lemma FullChord(key: string)
    ensures Render([true, true, true, true], key) == "CTRL+ALT+SHIFT+WIN+" + key
    ensures Render([false, false, false, false], key) == key
  {
    AllHeld();
    hide HeldNames, Join;
    JoinOne(key);
    JoinOneMore("WIN", [key]);
    JoinOneMore("SHIFT", ["WIN"] + [key]);
    JoinOneMore("ALT", ["SHIFT", "WIN"] + [key]);
    JoinOneMore("CTRL", ["ALT", "SHIFT", "WIN"] + [key]);
    assert ["CTRL", "ALT", "SHIFT", "WIN"] + [key] == ["CTRL"] + (["ALT", "SHIFT", "WIN"] + [key]);
    assert ["ALT", "SHIFT", "WIN"] + [key] == ["ALT"] + (["SHIFT", "WIN"] + [key]);
    assert ["SHIFT", "WIN"] + [key] == ["SHIFT"] + (["WIN"] + [key]);
    assert [] + [key] == [key];
  }

  lemma JoinOne(key: string)
    ensures Join([key], "+") == key
  {
  }

  lemma JoinOneMore(first: string, rest: seq<string>)
    requires rest != []
    ensures Join([first] + rest, "+") == first + "+" + Join(rest, "+")
  {
    assert ([first] + rest)[1..] == rest;
  }

  lemma AllHeld()
    ensures HeldNames([true, true, true, true], 0) == ["CTRL", "ALT", "SHIFT", "WIN"]
    ensures HeldNames([false, false, false, false], 0) == []
  {
    var all: Modifiers := [true, true, true, true];
    assert HeldNames(all, 4) == [];
    assert HeldNames(all, 3) == ["WIN"];
    assert HeldNames(all, 2) == ["SHIFT", "WIN"];
    assert HeldNames(all, 1) == ["ALT", "SHIFT", "WIN"];
    var none: Modifiers := [false, false, false, false];
    assert HeldNames(none, 2) == HeldNames(none, 3) == HeldNames(none, 4) == [];
  }

  /** The keys: one letter or digit, F with a number up to 24, or one of eight names. */
  lemma ValidKeyExactlyWhen(key: string)
    requires PlainToken(key)
    ensures IsValidKey(key) <==>
            || (|key| == 1 && ('0' <= key[0] <= '9' || 'A' <= key[0] <= 'Z'))
            || (|key| > 1 && key[0] == 'F' && AllDigits(key[1..]) && 1 <= Value(key[1..]) <= 24)
            || key in ["UP", "DOWN", "LEFT", "RIGHT", "SPACE", "TAB", "ENTER", "ESC"]
  {
    if |key| == 1 {
      assert Upper(key)[0] == UpperChar(key[0]) == key[0];
      assert key[1..] == "";
    } else {
      assert key[1] in key;
    }
    hide Value;
  }

  /** The codes of the keys, as the system numbers them. */
  lemma KeyCodes(key: string)
    requires PlainToken(key) && IsValidKey(key)
    ensures |key| == 1 ==> VirtualKey(key) == Some(key[0] as nat)
    ensures |key| > 1 && key !in NAMED_KEYS ==>
              AllDigits(key[1..]) && VirtualKey(key) == Some(0x70 + Value(key[1..]) - 1)
    ensures VirtualKey("UP") == Some(0x26) && VirtualKey("DOWN") == Some(0x28)
    ensures VirtualKey("LEFT") == Some(0x25) && VirtualKey("RIGHT") == Some(0x27)
    ensures VirtualKey("SPACE") == Some(0x20) && VirtualKey("TAB") == Some(0x09)
    ensures VirtualKey("ENTER") == Some(0x0D) && VirtualKey("ESC") == Some(0x1B)
  {
    NamedCodes();
    ValidKeyHasCode(key);
    CodeClasses(key);
    hide *;
    if |key| > 1 && key !in NAMED_KEYS { PlainNumber(key); }
  }

  lemma PlainNumber(key: string)
    requires PlainToken(key) && IsValidKey(key) && |key| > 1 && key !in NAMED_KEYS
    ensures AllDigits(key[1..]) && FunctionNumber(key).Some? && VirtualKey(key) == Some(0x6F + Value(key[1..]))
  {
    assert key[1] in key;
    hide Value;
  }

  lemma NamedCodes()
    ensures VirtualKey("UP") == Some(0x26) && VirtualKey("DOWN") == Some(0x28)
    ensures VirtualKey("LEFT") == Some(0x25) && VirtualKey("RIGHT") == Some(0x27)
    ensures VirtualKey("SPACE") == Some(0x20) && VirtualKey("TAB") == Some(0x09)
    ensures VirtualKey("ENTER") == Some(0x0D) && VirtualKey("ESC") == Some(0x1B)
  {
    hide VirtualKey;
    NamedCode(0); NamedCode(1); NamedCode(2); NamedCode(3);
    NamedCode(4); NamedCode(5); NamedCode(6); NamedCode(7);
  }

  lemma NamedCode(i: nat)
    requires i < 8
    ensures VirtualKey(NAMED_KEYS[i]) == Some(NAMED_CODES[i])
  {
    var key := NAMED_KEYS[i];
    assert key in NAMED_KEYS && |key| > 1 && key[0] != 'F';
    var r := NamedRank(key).value;
    assert NAMED_KEYS[r] == key;
    NamedApart(r, i);
    hide NamedRank, ParseUnsigned;
  }

  lemma NamedApart(i: nat, j: nat)
    requires i < 8 && j < 8 && NAMED_KEYS[i] == NAMED_KEYS[j]
    ensures i == j
  {
    assert NAMED_KEYS[0][0] == 'U' && NAMED_KEYS[1][0] == 'D' && NAMED_KEYS[2][0] == 'L' && NAMED_KEYS[3][0] == 'R';
    assert NAMED_KEYS[4][0] == 'S' && NAMED_KEYS[5][0] == 'T' && NAMED_KEYS[6][1] == 'N' && NAMED_KEYS[7][1] == 'S';
    assert NAMED_KEYS[6][0] == NAMED_KEYS[7][0] == 'E';
  }
}
