/** What a file-name pattern means: a template whose fields are filled in all at once. */
module ClipTemplate {
  import opened Text
  import opened Names
  import opened Patterns
  import opened ClipNaming

  datatype Piece = Plain(text: string) | Field(token: string)

  predicate IsField(token: string) {
    token == DATE || token == TIME || token == SOURCE || token == INDEX
  }

  /** Plain text without an opening brace, and the four fields a pattern may have. */
  predicate ValidTemplate(pieces: seq<Piece>) {
    forall p | p in pieces ::
      match p
      case Plain(text) => '{' !in text
      case Field(token) => IsField(token)
  }

  function Unparse(pieces: seq<Piece>): string {
    if pieces == [] then "" else
    (match pieces[0] case Plain(text) => text case Field(token) => token) + Unparse(pieces[1..])
  }

  /** The text with every field replaced by its value. */
  function Meaning(pieces: seq<Piece>, value: string -> string): string {
    if pieces == [] then "" else
    (match pieces[0] case Plain(text) => text case Field(token) => value(token)) + Meaning(pieces[1..], value)
  }

  function Substituted(pieces: seq<Piece>, token: string, value: string): (r: seq<Piece>)
    ensures |r| == |pieces|
    ensures forall i | 0 <= i < |r| :: r[i] == if pieces[i] == Field(token) then Plain(value) else pieces[i]
  {
    seq(|pieces|, i requires 0 <= i < |pieces| => if pieces[i] == Field(token) then Plain(value) else pieces[i])
  }

  lemma FieldsAreTokens(token: string, other: string)
    requires IsField(token) && IsField(other)
    ensures IsToken(token) && IsToken(other)
    ensures '{' !in other[1..]
    ensures token != other ==> token[1] != other[1]
  {
  }

  lemma NotAtField(token: string, other: string, rest: string)
    requires IsToken(token) && |other| >= 2 && token[1] != other[1]
    ensures !StartsWith(other + rest, token)
  {
    assert (other + rest)[1] == other[1];
    if |other + rest| >= |token| { assert (other + rest)[..|token|][1] == other[1]; }
  }

  /** Replacing one token steps over another one. */
  lemma ReplacePastField(token: string, value: string, other: string, rest: string)
    requires IsToken(token) && IsToken(other) && '{' !in other[1..] && token[1] != other[1]
    ensures ReplaceAll(other + rest, token, value) == other + ReplaceAll(rest, token, value)
    ensures Contains(other + rest, token) <==> Contains(rest, token)
  {
    var s := other + rest;
    assert s[1..] == other[1..] + rest;
    assert s[0] == other[0] && other == [other[0]] + other[1..];
    NotAtField(token, other, rest);
    ReplaceCopiesPlain(other[1..], rest, token, value);
    ContainsPastText(other[1..], rest, token);
    hide IsToken, StartsWith;
    if |s| < |token| { ShortUnchanged(rest, token, value); }
  }

  lemma TokenStart(s: string, token: string)
    requires IsToken(token)
    ensures StartsWith(s, token) ==> s[0] == '{'
  {
    if StartsWith(s, token) { assert s[..|token|][0] == s[0]; }
  }

  lemma {:induction false} ContainsPastText(plain: string, s: string, token: string)
    requires IsToken(token) && '{' !in plain
    ensures Contains(plain + s, token) <==> Contains(s, token)
    decreases |plain|
  {
    if plain == "" {
      assert plain + s == s;
    } else {
      ContainsPastText(plain[1..], s, token);
      assert (plain + s)[1..] == plain[1..] + s;
      assert (plain + s)[0] == plain[0] && plain[0] in plain;
      TokenStart(plain + s, token);
    }
  }

  lemma ReplaceField(token: string, value: string, rest: string)
    requires IsField(token)
    ensures ReplaceAll(token + rest, token, value) == value + ReplaceAll(rest, token, value)
    ensures Contains(token + rest, token)
  {
    var s := token + rest;
    assert s[..|token|] == token && s[|token|..] == rest;
  }

  /** Replacing a token in a template replaces that field and nothing else; the token occurs only as that field. */
  lemma {:induction false} ReplaceInTemplate(pieces: seq<Piece>, token: string, value: string)
    requires ValidTemplate(pieces) && IsField(token)
    ensures ReplaceAll(Unparse(pieces), token, value) == Unparse(Substituted(pieces, token, value))
    ensures Contains(Unparse(pieces), token) <==> Field(token) in pieces
  {
    hide ReplaceAll, Contains, IsToken;
    if pieces == [] {
      FieldsAreTokens(token, token);
      EmptyHasNoToken(token, value);
    } else {
      var rest := pieces[1..];
      FirstPiece(pieces, token, value);
      ReplaceInTemplate(rest, token, value);
      hide ValidTemplate, Substituted;
      match pieces[0] {
        case Plain(text) =>
          FieldsAreTokens(token, token);
          ReplaceCopiesPlain(text, Unparse(rest), token, value);
          ContainsPastText(text, Unparse(rest), token);
        case Field(other) =>
          if other == token {
            ReplaceField(token, value, Unparse(rest));
          } else {
            FieldsAreTokens(token, other);
            ReplacePastField(token, value, other, Unparse(rest));
          }
      }
    }
  }

  lemma FirstPiece(pieces: seq<Piece>, token: string, value: string)
    requires ValidTemplate(pieces) && pieces != []
    ensures ValidTemplate(pieces[1..])
    ensures match pieces[0] case Plain(text) => '{' !in text case Field(other) => IsField(other)
    ensures Field(token) in pieces <==> pieces[0] == Field(token) || Field(token) in pieces[1..]
    ensures var s := Substituted(pieces, token, value);
            s != [] && s[1..] == Substituted(pieces[1..], token, value)
            && s[0] == if pieces[0] == Field(token) then Plain(value) else pieces[0]
  {
    assert pieces == [pieces[0]] + pieces[1..] && pieces[0] in pieces;
    assert forall p | p in pieces[1..] :: p in pieces;
    assert Substituted(pieces, token, value)[1..] == Substituted(pieces[1..], token, value);
  }

  lemma EmptyHasNoToken(token: string, value: string)
    requires IsToken(token)
    ensures ReplaceAll("", token, value) == "" && !Contains("", token)
  {
  }

  lemma {:induction false} SubstitutionKeepsMeaning(pieces: seq<Piece>, token: string, value: string -> string)
    ensures Meaning(Substituted(pieces, token, value(token)), value) == Meaning(pieces, value)
  {
    if pieces != [] {
      var s := Substituted(pieces, token, value(token));
      SubstitutionKeepsMeaning(pieces[1..], token, value);
      assert s[1..] == Substituted(pieces[1..], token, value(token));
    }
  }

  function Value(date: string, time: string, source: string, index: nat): string -> string {
    token =>
      if token == DATE then date
      else if token == TIME then time
      else if token == SOURCE then source
      else Decimal(index)
  }

  /** One of the replacements: it fills in its field, and leaves a template of the same meaning. */
  lemma OneReplacement(pieces: seq<Piece>, token: string, value: string -> string)
    requires ValidTemplate(pieces) && IsField(token) && '{' !in value(token)
    ensures var r := Substituted(pieces, token, value(token));
            && ValidTemplate(r)
            && ReplaceAll(Unparse(pieces), token, value(token)) == Unparse(r)
            && Meaning(r, value) == Meaning(pieces, value)
  {
    ReplaceInTemplate(pieces, token, value(token));
    SubstitutionKeepsMeaning(pieces, token, value);
    hide ReplaceAll, Unparse, Meaning, Contains;
    var r := Substituted(pieces, token, value(token));
    forall p | p in r ensures p.Plain? ==> '{' !in p.text {
      var i :| 0 <= i < |r| && r[i] == p;
      assert pieces[i] in pieces;
    }
    forall p | p in r && p.Field? ensures IsField(p.token) {
      var i :| 0 <= i < |r| && r[i] == p;
      assert pieces[i] in pieces;
    }
  }

  // ---------------------------------------------------------------------------
  // The index is filled in last, also where the source text makes up its field.

  predicate IndexOnly(pieces: seq<Piece>) {
    forall i | 0 <= i < |pieces| :: pieces[i].Field? ==> pieces[i].token == INDEX
  }

  lemma FieldStart(pieces: seq<Piece>)
    requires IndexOnly(pieces)
    ensures pieces != [] && pieces[0].Field? ==> Unparse(pieces) != "" && Unparse(pieces)[0] == '{'
  {
  }

  /** What follows an opening brace reads the same before and after filling in. */
  lemma {:induction false} StartCarries(pieces: seq<Piece>, tail: string, value: string -> string)
    requires IndexOnly(pieces) && '{' !in tail && StartsWith(Unparse(pieces), tail)
    ensures StartsWith(Meaning(pieces, value), tail)
  {
    FieldStart(pieces);
    if tail != "" {
      var s, rest := Unparse(pieces), pieces[1..];
      assert s[0] == tail[0] && tail[0] in tail;
      match pieces[0]
      case Field(_) =>
      case Plain(text) =>
        if |tail| <= |text| {
          assert s[..|tail|] == text[..|tail|] == Meaning(pieces, value)[..|tail|];
        } else {
          assert s[..|tail|][..|text|] == text && s[..|tail|][|text|..] == Unparse(rest)[..|tail| - |text|];
          StartCarries(rest, tail[|text|..], value);
          assert Meaning(pieces, value)[..|tail|] == text + Meaning(rest, value)[..|tail| - |text|];
        }
    }
  }

  lemma FieldIsBraceAndTail(s: string)
    ensures StartsWith(s, INDEX) <==> s != "" && s[0] == '{' && StartsWith(s[1..], INDEX[1..])
  {
    if |s| >= |INDEX| {
      assert s[..|INDEX|] == [s[0]] + s[1..][..|INDEX| - 1];
    }
  }

  lemma {:induction false} ReplacePastText(text: string, pieces: seq<Piece>, value: string -> string)
    requires IndexOnly(pieces) && !Contains(text + Meaning(pieces, value), INDEX)
    ensures ReplaceAll(text + Unparse(pieces), INDEX, value(INDEX))
            == text + ReplaceAll(Unparse(pieces), INDEX, value(INDEX))
  {
    var u, m := Unparse(pieces), Meaning(pieces, value);
    hide Unparse, Meaning, IndexOnly, Contains, StartsWith;
    if text == "" {
      assert text + u == u;
    } else {
      NoFieldHere(text, pieces, value);
      ReplacePastText(text[1..], pieces, value);
      StepOver(text, u, value(INDEX));
    }
  }

  lemma StepOver(text: string, u: string, digits: string)
    requires text != "" && !StartsWith(text + u, INDEX)
    requires ReplaceAll(text[1..] + u, INDEX, digits) == text[1..] + ReplaceAll(u, INDEX, digits)
    ensures ReplaceAll(text + u, INDEX, digits) == text + ReplaceAll(u, INDEX, digits)
  {
    var s := text + u;
    assert s[1..] == text[1..] + u && s[0] == text[0];
    assert text == [text[0]] + text[1..];
    if |s| < |INDEX| {
      ShortUnchanged(u, INDEX, digits);
    } else {
      assert ReplaceAll(s, INDEX, digits) == [s[0]] + ReplaceAll(s[1..], INDEX, digits);
      hide ReplaceAll, StartsWith;
    }
  }

  lemma NoFieldHere(text: string, pieces: seq<Piece>, value: string -> string)
    requires text != "" && IndexOnly(pieces) && !Contains(text + Meaning(pieces, value), INDEX)
    ensures !StartsWith(text + Unparse(pieces), INDEX)
    ensures !Contains(text[1..] + Meaning(pieces, value), INDEX)
  {
    var all, tail := [Plain(text[1..])] + pieces, INDEX[1..];
    assert '{' !in tail;
    TextInFront(text[1..], pieces, value);
    hide *;
    if StartsWith(Unparse(all), tail) { StartCarries(all, tail, value); }
    NoFieldInFront(text, Unparse(pieces), Meaning(pieces, value));
  }

  lemma NoFieldInFront(text: string, u: string, m: string)
    requires text != "" && !Contains(text + m, INDEX)
    requires StartsWith(text[1..] + u, INDEX[1..]) ==> StartsWith(text[1..] + m, INDEX[1..])
    ensures !StartsWith(text + u, INDEX)
    ensures !Contains(text[1..] + m, INDEX)
  {
    assert (text + u)[1..] == text[1..] + u && (text + m)[1..] == text[1..] + m;
    ContainsOneStep(text + m);
    hide Contains, StartsWith;
    FieldIsBraceAndTail(text + u);
    FieldIsBraceAndTail(text + m);
  }

  lemma TextInFront(text: string, pieces: seq<Piece>, value: string -> string)
    requires IndexOnly(pieces)
    ensures var all := [Plain(text)] + pieces;
            && IndexOnly(all) && Unparse(all) == text + Unparse(pieces)
            && Meaning(all, value) == text + Meaning(pieces, value)
  {
    assert ([Plain(text)] + pieces)[1..] == pieces;
  }

  lemma ContainsOneStep(s: string)
    requires s != "" && !Contains(s, INDEX)
    ensures !StartsWith(s, INDEX) && !Contains(s[1..], INDEX)
  {
  }

  /** Filling in the index gives the meaning, when the meaning holds no index field. */
  lemma {:induction false} IndexFillsIn(pieces: seq<Piece>, value: string -> string)
    requires IndexOnly(pieces) && !Contains(Meaning(pieces, value), INDEX)
    ensures ReplaceAll(Unparse(pieces), INDEX, value(INDEX)) == Meaning(pieces, value)
  {
    if pieces != [] {
      var rest := pieces[1..];
      if Contains(Meaning(rest, value), INDEX) {
        var first := match pieces[0] case Plain(text) => text case Field(token) => value(token);
        ContainsAfterPrefix(first, Meaning(rest, value), INDEX);
      }
      IndexFillsIn(rest, value);
      match pieces[0]
      case Plain(text) => ReplacePastText(text, rest, value);
      case Field(_) => ReplaceField(INDEX, value(INDEX), Unparse(rest));
    }
  }

  predicate Digits(s: string) {
    s != "" && forall c | c in s :: IsDigit(c)
  }

  lemma ReplacedStart(s: string, digits: string)
    requires Digits(digits)
    ensures StartsWith(s, INDEX) ==>
              ReplaceAll(s, INDEX, digits) != "" && IsDigit(ReplaceAll(s, INDEX, digits)[0])
  {
    assert digits[0] in digits;
  }

  /** What reads on from a brace after the replacement read on from it before. */
  lemma {:induction false} StartWasThere(s: string, digits: string, tail: string)
    requires Digits(digits) && (forall c | c in tail :: c != '{' && !IsDigit(c))
    requires StartsWith(ReplaceAll(s, INDEX, digits), tail)
    ensures StartsWith(s, tail)
    decreases |s|
  {
    ReplacedStart(s, digits);
    if |s| >= |INDEX| && tail != "" {
      var r := ReplaceAll(s, INDEX, digits);
      assert r[0] == tail[0] && tail[0] in tail;
      if !StartsWith(s, INDEX) {
        assert r[1..] == ReplaceAll(s[1..], INDEX, digits);
        assert tail == [tail[0]] + tail[1..] && r[..|tail|][1..] == r[1..][..|tail| - 1];
        assert forall c | c in tail[1..] :: c in tail;
        StartWasThere(s[1..], digits, tail[1..]);
        assert s[..|tail|] == [s[0]] + s[1..][..|tail| - 1];
      }
    }
  }

  /** Digits never complete an index field. */
  lemma {:induction false} NoFieldIsLeft(s: string, digits: string)
    requires Digits(digits)
    ensures !Contains(ReplaceAll(s, INDEX, digits), INDEX)
    decreases |s|
  {
    if |s| >= |INDEX| {
      if StartsWith(s, INDEX) {
        NoFieldIsLeft(s[|INDEX|..], digits);
        ContainsPastText(digits, ReplaceAll(s[|INDEX|..], INDEX, digits), INDEX);
      } else {
        NoFieldIsLeft(s[1..], digits);
        NoFieldBegins(s, digits);
      }
    }
  }

  lemma NoFieldBegins(s: string, digits: string)
    requires |s| >= |INDEX| && !StartsWith(s, INDEX) && Digits(digits)
    ensures var r := ReplaceAll(s, INDEX, digits);
            r != "" && r[1..] == ReplaceAll(s[1..], INDEX, digits) && !StartsWith(r, INDEX)
  {
    var r := ReplaceAll(s, INDEX, digits);
    FieldIsBraceAndTail(s);
    FieldIsBraceAndTail(r);
    hide StartsWith;
    if StartsWith(r, INDEX) { StartWasThere(s[1..], digits, INDEX[1..]); }
  }

  lemma {:induction false} NoBraceInMeaning(pieces: seq<Piece>, value: string -> string)
    requires ValidTemplate(pieces) && forall token | IsField(token) :: '{' !in value(token)
    ensures '{' !in Meaning(pieces, value)
  {
    if pieces != [] {
      assert pieces[0] in pieces && forall p | p in pieces[1..] :: p in pieces;
      NoBraceInMeaning(pieces[1..], value);
    }
  }

  lemma {:induction false} SourceShows(pieces: seq<Piece>, value: string -> string)
    requires Field(SOURCE) in pieces && Contains(value(SOURCE), INDEX)
    ensures Contains(Meaning(pieces, value), INDEX)
  {
    var rest := pieces[1..];
    if pieces[0] == Field(SOURCE) {
      ContainsBeforeSuffix(value(SOURCE), Meaning(rest, value), INDEX);
    } else {
      assert pieces == [pieces[0]] + rest;
      SourceShows(rest, value);
      var first := match pieces[0] case Plain(text) => text case Field(token) => value(token);
      ContainsAfterPrefix(first, Meaning(rest, value), INDEX);
    }
  }

  // ---------------------------------------------------------------------------
  // Rendering.

  /** The text of a file name before it is sanitized. */
  function FilledIn(pattern: string, date: string, time: string, source: string, index: nat): string {
    ReplaceAll(Filled(pattern, date, time, source), INDEX, Decimal(index))
  }

  /**
   * The four replacements in turn fill in every field with its own value, if and only if the result
   * holds no index field. It holds none when the source text has no opening brace, and one when the
   * source text has an index field that is filled in.
   */
  lemma RenderingFillsTemplate(pieces: seq<Piece>, date: string, time: string, source: string, index: nat)
    requires ValidTemplate(pieces) && '{' !in date && '{' !in time
    ensures var meaning := Meaning(pieces, Value(date, time, source, index));
            && (FilledIn(Unparse(pieces), date, time, source, index) == meaning <==> !Contains(meaning, INDEX))
            && ('{' !in source ==> !Contains(meaning, INDEX))
            && (Field(SOURCE) in pieces && Contains(source, INDEX) ==> Contains(meaning, INDEX))
  {
    var value := Value(date, time, source, index);
    var meaning := Meaning(pieces, value);
    assert value(DATE) == date && value(TIME) == time && value(SOURCE) == source && value(INDEX) == Decimal(index);
    assert '{' !in Decimal(index);
    var three := AllButIndex(pieces, date, time, source, index);
    NoFieldIsLeft(Unparse(three), Decimal(index));
    if !Contains(meaning, INDEX) { IndexFillsIn(three, value); }
    if '{' !in source {
      NoBraceInMeaning(pieces, value);
      hide Value, Meaning;
      NoBraceNoField(meaning);
    }
    if Field(SOURCE) in pieces && Contains(source, INDEX) { SourceShows(pieces, value); }
  }

  lemma NoBraceNoField(s: string)
    requires '{' !in s
    ensures !Contains(s, INDEX)
  {
    ContainsPastText(s, "", INDEX);
    assert s + "" == s;
  }

  /** The first three replacements leave text and index fields, with the same meaning. */
  lemma AllButIndex(pieces: seq<Piece>, date: string, time: string, source: string, index: nat)
    returns (three: seq<Piece>)
    requires ValidTemplate(pieces) && '{' !in date && '{' !in time
    ensures IndexOnly(three) && Unparse(three) == Filled(Unparse(pieces), date, time, source)
    ensures var value := Value(date, time, source, index);
            Meaning(three, value) == Meaning(pieces, value)
  {
    var value := Value(date, time, source, index);
    assert value(DATE) == date && value(TIME) == time && value(SOURCE) == source;
    hide ReplaceAll, Contains, Meaning, Unparse, ValidTemplate, Value;
    var one := Substituted(pieces, DATE, date);
    var two := Substituted(one, TIME, time);
    three := Substituted(two, SOURCE, source);
    OneReplacement(pieces, DATE, value);
    OneReplacement(one, TIME, value);
    ReplaceInTemplate(two, SOURCE, source);
    SubstitutionKeepsMeaning(two, SOURCE, value);
    OnlyIndexIsLeft(pieces, date, time, source);
  }

  lemma OnlyIndexIsLeft(pieces: seq<Piece>, date: string, time: string, source: string)
    requires ValidTemplate(pieces)
    ensures IndexOnly(Substituted(Substituted(Substituted(pieces, DATE, date), TIME, time), SOURCE, source))
  {
    forall i | 0 <= i < |pieces| ensures pieces[i].Field? ==> IsField(pieces[i].token) {
      assert pieces[i] in pieces;
    }
  }

  /** The rendered name is the filled-in text sanitized, and numbered only if the template has no index field. */
  lemma RenderedNameIsFilledIn(pieces: seq<Piece>, date: string, time: string, source: string, index: nat)
    requires ValidTemplate(pieces)
    ensures RenderFileName(Unparse(pieces), date, time, source, index)
            == Sanitized(FilledIn(Unparse(pieces), date, time, source, index), CLIP_FALLBACK)
               + if Field(INDEX) !in pieces && index > 1 then "_" + Decimal(index - 1) else ""
  {
    ReplaceInTemplate(pieces, INDEX, Decimal(index));
    hide ReplaceAll, Contains, Sanitized, Decimal, Unparse, ValidTemplate;
  }

  /** A source named like the index field is filled in again, although the template asks for no index. */
  lemma SourceNamedIndexIsExpanded(date: string, time: string)
    requires '{' !in date && '{' !in time
    ensures ValidTemplate([Field(SOURCE)]) && Field(INDEX) !in [Field(SOURCE)]
    ensures Meaning([Field(SOURCE)], Value(date, time, "{index}", 1)) == "{index}"
    ensures FilledIn(Unparse([Field(SOURCE)]), date, time, "{index}", 1) == "1"
  {
    var pieces := [Field(SOURCE)];
    assert pieces[1..] == [];
    assert Unparse(pieces) == SOURCE + "" == SOURCE && "{index}" + "" == "{index}" == INDEX && "1" + "" == "1";
    SourceAlone(date, time, "{index}");
    hide ReplaceAll, Contains;
    ShortUnchanged("", INDEX, "1");
    ReplaceField(INDEX, "1", "");
  }

  lemma SourceAlone(date: string, time: string, source: string)
    ensures Filled(SOURCE, date, time, source) == source
  {
    FieldsAreTokens(DATE, SOURCE);
    FieldsAreTokens(TIME, SOURCE);
    ShortUnchanged("", DATE, date);
    ShortUnchanged("", TIME, time);
    ShortUnchanged("", SOURCE, source);
    hide ReplaceAll, Contains;
    ReplacePastField(DATE, date, SOURCE, "");
    ReplacePastField(TIME, time, SOURCE, "");
    ReplaceField(SOURCE, source, "");
    assert SOURCE + "" == SOURCE && source + "" == source;
  }
}
