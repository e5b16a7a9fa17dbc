/** Token replacement in file-name patterns. */
module Patterns {
  import opened Text

  predicate StartsWith(s: string, token: string) {
    |token| <= |s| && s[..|token|] == token
  }

  predicate Contains(s: string, token: string)
    requires token != ""
  {
    |s| >= |token| && (StartsWith(s, token) || Contains(s[1..], token))
  }

  /** Replace the leftmost, non-overlapping occurrences of `token`. */
  function ReplaceAll(s: string, token: string, value: string): string
    requires token != ""
    decreases |s|
  {
    if |s| < |token| then s
    else if StartsWith(s, token) then value + ReplaceAll(s[|token|..], token, value)
    else [s[0]] + ReplaceAll(s[1..], token, value)
  }

  /** The text around the occurrences that `ReplaceAll` would replace. */
  function Pieces(s: string, token: string): (parts: seq<string>)
    requires token != ""
    ensures parts != []
    decreases |s|
  {
    if |s| < |token| then [s]
    else if StartsWith(s, token) then [""] + Pieces(s[|token|..], token)
    else
      var rest := Pieces(s[1..], token);
      [[s[0]] + rest[0]] + rest[1..]
  }

  lemma JoinAfterPrefix(c: char, parts: seq<string>, value: string)
    requires parts != []
    ensures Join([[c] + parts[0]] + parts[1..], value) == [c] + Join(parts, value)
  {
    var longer := [[c] + parts[0]] + parts[1..];
    if |parts| > 1 {
      assert longer[1..] == parts[1..];
      assert longer[0] + value + Join(longer[1..], value) == [c] + (parts[0] + value + Join(parts[1..], value));
    }
  }

  lemma {:induction false} ReplacementJoinsPieces(s: string, token: string, value: string)
    requires token != ""
    ensures ReplaceAll(s, token, value) == Join(Pieces(s, token), value)
    decreases |s|
  {
    if |s| < |token| {
    } else if StartsWith(s, token) {
      ReplacementJoinsPieces(s[|token|..], token, value);
      assert Pieces(s, token)[1..] == Pieces(s[|token|..], token);
      assert "" + value == value;
    } else {
      ReplacementJoinsPieces(s[1..], token, value);
      JoinAfterPrefix(s[0], Pieces(s[1..], token), value);
    }
  }

  lemma {:induction false} PiecesCountOccurrences(s: string, token: string)
    requires token != ""
    ensures Contains(s, token) <==> |Pieces(s, token)| > 1
    decreases |s|
  {
    if |s| >= |token| && !StartsWith(s, token) {
      PiecesCountOccurrences(s[1..], token);
    }
  }

  /** A token opens with a brace and holds no other opening brace, so two tokens never overlap. */
  predicate IsToken(token: string) {
    |token| >= 2 && token[0] == '{' && forall i | 1 <= i < |token| :: token[i] != '{'
  }

  lemma {:induction false} ContainsAfterPrefix(prefix: string, s: string, token: string)
    requires token != "" && Contains(s, token)
    ensures Contains(prefix + s, token)
  {
    if prefix == "" {
      assert prefix + s == s;
    } else {
      ContainsAfterPrefix(prefix[1..], s, token);
      assert (prefix + s)[1..] == prefix[1..] + s;
    }
  }

  lemma {:induction false} ContainsBeforeSuffix(s: string, suffix: string, token: string)
    requires token != "" && Contains(s, token)
    ensures Contains(s + suffix, token)
  {
    if StartsWith(s, token) {
      assert (s + suffix)[..|token|] == s[..|token|];
    } else {
      ContainsBeforeSuffix(s[1..], suffix, token);
      assert (s + suffix)[1..] == s[1..] + suffix;
    }
  }

  lemma {:induction false} ContainsPastToken(s: string, other: string, token: string)
    requires IsToken(token) && IsToken(other) && token[1] != other[1]
    requires Contains(s, token) && StartsWith(s, other)
    ensures Contains(s[|other|..], token)
  {
    ContainsPastPlain(s, 1, token);
    var n := 1;
    while n < |other|
      invariant 1 <= n <= |other| <= |s|
      invariant Contains(s[n..], token)
    {
      assert s[n] == other[n];
      ContainsPastPlain(s[n..], 1, token);
      assert s[n..][1..] == s[n + 1..];
      n := n + 1;
    }
  }

  lemma ContainsPastPlain(s: string, n: nat, token: string)
    requires token != "" && Contains(s, token) && n == 1 <= |s| && !StartsWith(s, token)
    ensures Contains(s[1..], token)
  {
  }

  /** Text without an opening brace is copied through. */
  lemma {:induction false} ReplaceCopiesPlain(plain: string, s: string, token: string, value: string)
    requires IsToken(token) && '{' !in plain
    ensures ReplaceAll(plain + s, token, value) == plain + ReplaceAll(s, token, value)
    decreases |plain|
  {
    if plain == "" {
      assert plain + s == s;
    } else {
      ReplaceCopiesPlain(plain[1..], s, token, value);
      assert (plain + s)[1..] == plain[1..] + s;
      assert (plain + s)[0] == plain[0];
      if |plain + s| < |token| {
        ShortUnchanged(s, token, value);
      }
    }
  }

  lemma ShortUnchanged(s: string, token: string, value: string)
    requires token != "" && |s| < |token|
    ensures ReplaceAll(s, token, value) == s
  {
  }

  lemma ReplaceSkipsToken(s: string, other: string, value: string, token: string)
    requires IsToken(token) && IsToken(other) && token[1] != other[1] && StartsWith(s, token)
    ensures Contains(ReplaceAll(s, other, value), token)
  {
    var tail := s[|token|..];
    assert s[1..] == token[1..] + tail;
    if |s| >= |other| {
      assert !StartsWith(s, other) by {
        assert s[1] == token[1];
      }
      ReplaceCopiesPlain(token[1..], tail, other, value);
      var r := ReplaceAll(s, other, value);
      assert r == [s[0]] + (token[1..] + ReplaceAll(tail, other, value));
      assert r[..|token|] == token;
    }
  }

  /** Replacing one token never destroys an occurrence of another. */
  lemma {:induction false} ReplaceKeepsOther(s: string, other: string, value: string, token: string)
    requires IsToken(token) && IsToken(other) && token[1] != other[1]
    requires Contains(s, token)
    ensures Contains(ReplaceAll(s, other, value), token)
    decreases |s|
  {
    assert other != "" && token != "";
    hide IsToken;
    if |s| < |other| {
    } else if StartsWith(s, other) {
      ContainsPastToken(s, other, token);
      ReplaceKeepsOther(s[|other|..], other, value, token);
      ContainsAfterPrefix(value, ReplaceAll(s[|other|..], other, value), token);
    } else if StartsWith(s, token) {
      ReplaceSkipsToken(s, other, value, token);
    } else {
      ReplaceKeepsOther(s[1..], other, value, token);
      ContainsAfterPrefix([s[0]], ReplaceAll(s[1..], other, value), token);
    }
  }

  /** A token occurs in a text exactly when it stands between two parts of it. */
  lemma ContainsExactlyWhen(s: string, token: string)
    requires token != ""
    ensures Contains(s, token) <==> exists head: string, tail: string :: s == head + token + tail
  {
    if Contains(s, token) { var head, tail := SplitAround(s, token); }
    forall head: string, tail: string | s == head + token + tail ensures Contains(s, token) {
      assert (token + tail)[..|token|] == token;
      ContainsAfterPrefix(head, token + tail, token);
      assert head + (token + tail) == s;
    }
  }

  lemma {:induction false} SplitAround(s: string, token: string) returns (head: string, tail: string)
    requires token != "" && Contains(s, token)
    ensures s == head + token + tail
  {
    if StartsWith(s, token) {
      head, tail := "", s[|token|..];
    } else {
      var rest;
      rest, tail := SplitAround(s[1..], token);
      head := [s[0]] + rest;
      assert s == [s[0]] + s[1..];
    }
  }
}
