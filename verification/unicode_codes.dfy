/** `extractUnicodeCodes` from utils/scraper.js: the code points named in an
    emoji image URL, as a space-separated list of `U+XXXX` tokens.

    The URL is scanned with the global pattern `_([0-9a-fA-F-]+)(?=(_|\.))`:
    an underscore, then a run of hexadecimal digits and hyphens (the captured
    group), which must be followed by `_` or `.`; the lookahead does not
    consume that delimiter, so the next search starts on it. Every group is
    split on `-`, every piece is upper-cased and prefixed with `U+`, and the
    tokens are joined with single spaces. */
module UnicodeCodes {
  import opened Seqs

  predicate IsHexDigit(c: char)
  {
    '0' <= c <= '9' || 'a' <= c <= 'f' || 'A' <= c <= 'F'
  }

  /** A character of the class `[0-9a-fA-F-]`. */
  predicate IsRunChar(c: char)
  {
    IsHexDigit(c) || c == '-'
  }

  /** A character the lookahead `(?=(_|\.))` accepts. */
  predicate IsDelimiter(c: char)
  {
    c == '_' || c == '.'
  }

  /** End of the longest run of `[0-9a-fA-F-]` characters starting at `i`. */
  function RunEnd(s: string, i: nat): (j: nat)
    requires i <= |s|
    decreases |s| - i
    ensures i <= j <= |s|
    ensures forall k | i <= k < j :: IsRunChar(s[k])
    ensures j == |s| || !IsRunChar(s[j])
  {
    if i == |s| || !IsRunChar(s[i]) then i else RunEnd(s, i + 1)
  }

  /** The pattern, read literally: a match starting at `i` whose group ends
      at `j` (exclusive), for any length the quantifier might settle on. */
  predicate PatternAccepts(s: string, i: nat, j: nat)
  {
    && i + 1 < j < |s|
    && s[i] == '_'
    && (forall k | i + 1 <= k < j :: IsRunChar(s[k]))
    && IsDelimiter(s[j])
  }

  /** A match starts at `i`: an underscore whose maximal run is non-empty and
      ends right before a delimiter. */
  predicate MatchAt(s: string, i: nat)
  {
    && i < |s|
    && s[i] == '_'
    && var j := RunEnd(s, i + 1);
       i + 1 < j < |s| && IsDelimiter(s[j])
  }

  /** A possible captured group: one or more characters of `[0-9a-fA-F-]`. */
  predicate IsGroup(g: string)
  {
    |g| > 0 && forall k | 0 <= k < |g| :: IsRunChar(g[k])
  }

  /** The captured group of the match at `i`. */
  function Group(s: string, i: nat): (g: string)
    requires MatchAt(s, i)
    ensures IsGroup(g)
  {
    s[i + 1..RunEnd(s, i + 1)]
  }

  /** The greedy quantifier can only stop at the end of the maximal run: any
      shorter group is followed by a run character, which is neither `_` nor
      `.`, so backtracking never yields a different match. */
  lemma OnlyMaximalRunMatches(s: string, i: nat, j: nat)
    ensures PatternAccepts(s, i, j) <==> MatchAt(s, i) && j == RunEnd(s, i + 1)
  {
  }

  /** `url.matchAll(regex)` from position `i`: the groups in order. After a
      match the search resumes at the delimiter, otherwise one position on. */
  function ScanFrom(s: string, i: nat): (groups: seq<string>)
    requires i <= |s|
    decreases |s| - i
    ensures forall n | 0 <= n < |groups| :: IsGroup(groups[n])
  {
    if i == |s| then []
    else if MatchAt(s, i) then [Group(s, i)] + ScanFrom(s, RunEnd(s, i + 1))
    else ScanFrom(s, i + 1)
  }

  /** Reference reading of the pattern: one group for every position from
      `i` on where a match starts, none skipped. */
  function MatchesFrom(s: string, i: nat): (groups: seq<string>)
    requires i <= |s|
    decreases |s| - i
    ensures forall n | 0 <= n < |groups| :: IsGroup(groups[n])
  {
    if i == |s| then []
    else (if MatchAt(s, i) then [Group(s, i)] else []) + MatchesFrom(s, i + 1)
  }

  /** No match starts inside a run of hexadecimal digits and hyphens. */
  lemma {:induction false} NoMatchInsideRun(s: string, a: nat, b: nat)
    requires a <= b <= |s|
    requires forall k | a <= k < b :: IsRunChar(s[k])
    ensures MatchesFrom(s, a) == MatchesFrom(s, b)
    decreases b - a
  {
    if a < b {
      assert !MatchAt(s, a);
      NoMatchInsideRun(s, a + 1, b);
    }
  }

  /** The reference finds nothing exactly when no match starts from `i` on. */
  lemma {:induction false} NoMatchesIff(s: string, i: nat)
    requires i <= |s|
    ensures MatchesFrom(s, i) == [] <==> forall k | i <= k < |s| :: !MatchAt(s, k)
    decreases |s| - i
  {
    if i < |s| {
      NoMatchesIff(s, i + 1);
    }
  }

  /** Resuming the search at the delimiter loses no match: the scan finds a
      group for exactly the positions where a match starts. */
  lemma {:induction false} ScanFindsEveryMatch(s: string, i: nat)
    requires i <= |s|
    ensures ScanFrom(s, i) == MatchesFrom(s, i)
    decreases |s| - i
  {
    if i < |s| {
      if MatchAt(s, i) {
        var j := RunEnd(s, i + 1);
        ScanFindsEveryMatch(s, j);
        NoMatchInsideRun(s, i + 1, j);
      } else {
        ScanFindsEveryMatch(s, i + 1);
      }
    }
  }

  /** `String.prototype.toUpperCase` on one character, for ASCII letters. */
  function UpperChar(c: char): char
  {
    if 'a' <= c <= 'z' then (c as int - 32) as char else c
  }

  function ToUpper(s: string): (u: string)
  {
    seq(|s|, k requires 0 <= k < |s| => UpperChar(s[k]))
  }

  /** `"U+"` followed by upper-case hexadecimal digits only (possibly none). */
  predicate IsToken(t: string)
  {
    && |t| >= 2
    && t[..2] == "U+"
    && forall k | 2 <= k < |t| :: '0' <= t[k] <= '9' || 'A' <= t[k] <= 'F'
  }

  /** The hyphen-separated pieces of the groups, in order. */
  function Pieces(groups: seq<string>): seq<string>
  {
    Flatten(seq(|groups|, i requires 0 <= i < |groups| => Split(groups[i], '-')))
  }

  /** One `U+` token per piece, upper-cased. */
  function Tokens(groups: seq<string>): (tokens: seq<string>)
    requires forall n | 0 <= n < |groups| :: IsGroup(groups[n])
    ensures |tokens| == |Pieces(groups)|
    ensures forall n | 0 <= n < |tokens| :: IsToken(tokens[n])
  {
    var pieces := Pieces(groups);
    var tokens := seq(|pieces|, i requires 0 <= i < |pieces| => "U+" + ToUpper(pieces[i]));
    forall i | 0 <= i < |pieces|
      ensures IsToken(tokens[i])
    {
      PiecesAreHex(groups);
      var t := tokens[i];
      forall k | 2 <= k < |t|
        ensures '0' <= t[k] <= '9' || 'A' <= t[k] <= 'F'
      {
        assert t[k] == UpperChar(pieces[i][k - 2]);
        assert IsHexDigit(pieces[i][k - 2]);
      }
    }
    tokens
  }

  /** Every piece consists of hexadecimal digits only. */
  lemma {:induction false} PiecesAreHex(groups: seq<string>)
    requires forall n | 0 <= n < |groups| :: IsGroup(groups[n])
    ensures forall n, k | 0 <= n < |Pieces(groups)| && 0 <= k < |Pieces(groups)[n]| :: IsHexDigit(Pieces(groups)[n][k])
    decreases |groups|
  {
    if |groups| > 0 {
      PiecesCons(groups);
      var first := Split(groups[0], '-');
      var rest := Pieces(groups[1..]);
      assert forall n | 0 <= n < |groups| - 1 :: groups[1..][n] == groups[n + 1];
      PiecesAreHex(groups[1..]);
      forall n, k | 0 <= n < |first| && 0 <= k < |first[n]|
        ensures IsHexDigit(first[n][k])
      {
        var c := first[n][k];
        assert c in groups[0] && c != '-';
        var idx :| 0 <= idx < |groups[0]| && groups[0][idx] == c;
        assert IsRunChar(groups[0][idx]);
      }
      assert Pieces(groups) == first + rest;
      forall n, k | 0 <= n < |Pieces(groups)| && 0 <= k < |Pieces(groups)[n]|
        ensures IsHexDigit(Pieces(groups)[n][k])
      {
        if n >= |first| {
          assert Pieces(groups)[n] == rest[n - |first|];
        }
      }
    }
  }

  /** Joining the tokens of some groups with spaces: empty exactly when
      there are no groups, and otherwise split back into the tokens on
      spaces, as no token contains a space. */
  lemma JoinTokens(groups: seq<string>)
    requires forall n | 0 <= n < |groups| :: IsGroup(groups[n])
    ensures Join(Tokens(groups), ' ') == "" <==> groups == []
    ensures groups != [] ==> Split(Join(Tokens(groups), ' '), ' ') == Tokens(groups)
  {
    var tokens := Tokens(groups);
    JoinEmptyIffNoParts(tokens, ' ');
    var parts := seq(|groups|, i requires 0 <= i < |groups| => Split(groups[i], '-'));
    if groups != [] {
      assert |Split(groups[0], '-')| >= 1;
      assert Flatten(parts) == parts[0] + Flatten(parts[1..]);
      assert |Pieces(groups)| >= 1;
    }
    if tokens != [] {
      forall n | 0 <= n < |tokens|
        ensures ' ' !in tokens[n]
      {
        assert IsToken(tokens[n]);
      }
      SplitJoin(tokens, ' ');
    }
  }

  /** `extractUnicodeCodes(url)`: the `U+` tokens of every match, with single
      spaces between them. It is empty exactly when no match starts anywhere
      in the URL; otherwise splitting it on spaces gives back the tokens of
      the matches found at every position. */
  function ExtractUnicodeCodes(url: string): (codes: string)
    ensures codes == "" <==> forall k | 0 <= k < |url| :: !MatchAt(url, k)
    ensures codes != "" ==> Split(codes, ' ') == Tokens(MatchesFrom(url, 0))
  {
    var groups := ScanFrom(url, 0);
    ScanFindsEveryMatch(url, 0);
    NoMatchesIff(url, 0);
    JoinTokens(groups);
    Join(Tokens(groups), ' ')
  }

  /** Two adjacent matches share the underscore between them: `_a_b.` gives
      `U+A U+B`. */
  lemma AdjacentMatches()
    ensures ExtractUnicodeCodes("_a_b.") == "U+A U+B"
  {
    var s := "_a_b.";
    assert RunEnd(s, 3) == 4;
    assert RunEnd(s, 1) == 2;
    assert MatchAt(s, 0) && Group(s, 0) == "a";
    assert MatchAt(s, 2) && Group(s, 2) == "b";
    assert !MatchAt(s, 4);
    assert ScanFrom(s, 0) == ["a", "b"];
    TwoPieceTokens();
  }

  /** The groups `a` and `b` are one piece each. */
  lemma TwoPieces()
    ensures Pieces(["a", "b"]) == ["a", "b"]
  {
    SplitWithoutSeparator("a", '-');
    SplitWithoutSeparator("b", '-');
    var groups := ["a", "b"];
    assert seq(|groups|, i requires 0 <= i < |groups| => Split(groups[i], '-')) == [["a"], ["b"]];
    assert [["a"], ["b"]][1..] == [["b"]];
    assert [["b"]][1..] == [];
    assert Flatten([["b"]]) == ["b"];
  }

  /** The tokens of the groups `a` and `b`. */
  lemma TwoPieceTokens()
    ensures Join(Tokens(["a", "b"]), ' ') == "U+A U+B"
  {
    TwoPieces();
    assert ToUpper("a") == "A";
    assert ToUpper("b") == "B";
    var tokens := Tokens(["a", "b"]);
    assert tokens[0] == "U+A" && tokens[1] == "U+B";
    assert tokens == ["U+A", "U+B"];
    assert tokens[1..] == ["U+B"];
  }

  /** A leading, trailing or doubled hyphen gives an empty piece, so a token
      may be a bare `U+`: `_-a.` gives `U+ U+A`. */
  lemma EmptyPiece()
    ensures ExtractUnicodeCodes("_-a.") == "U+ U+A"
  {
    var s := "_-a.";
    assert RunEnd(s, 3) == 3;
    assert RunEnd(s, 1) == 3;
    assert MatchAt(s, 0) && Group(s, 0) == "-a";
    assert !MatchAt(s, 3);
    assert ScanFrom(s, 0) == ["-a"];
    HyphenLedTokens();
  }

  /** The tokens of the single group `-a`. */
  lemma HyphenLedTokens()
    ensures Join(Tokens(["-a"]), ' ') == "U+ U+A"
  {
    var g := "-a";
    SplitWithoutSeparator("a", '-');
    assert g[1..] == "a";
    assert Split(g, '-') == ["", "a"];
    var groups := [g];
    assert seq(|groups|, i requires 0 <= i < |groups| => Split(groups[i], '-')) == [["", "a"]];
    assert [["", "a"]][1..] == [];
    assert Flatten([["", "a"]]) == ["", "a"];
    assert ToUpper("") == "";
    assert ToUpper("a") == "A";
    var tokens := Tokens(groups);
    assert tokens[0] == "U+" && tokens[1] == "U+A";
    assert tokens == ["U+", "U+A"];
    assert tokens[1..] == ["U+A"];
  }

  /** A URL without an underscore gives the empty string. */
  lemma NoMatchGivesEmpty(url: string)
    requires '_' !in url
    ensures ExtractUnicodeCodes(url) == ""
  {
  }

  /** Number of pieces, counted group by group: one more than its hyphens. */
  function PieceCount(groups: seq<string>): nat
    decreases |groups|
  {
    if |groups| == 0 then 0 else Count(groups[0], '-') + 1 + PieceCount(groups[1..])
  }

  lemma PiecesCons(groups: seq<string>)
    requires |groups| > 0
    ensures Pieces(groups) == Split(groups[0], '-') + Pieces(groups[1..])
  {
    var parts := seq(|groups|, i requires 0 <= i < |groups| => Split(groups[i], '-'));
    var tail := groups[1..];
    assert parts[1..] == seq(|tail|, i requires 0 <= i < |tail| => Split(tail[i], '-'));
  }

  /** One token per hyphen-separated piece of every group, in URL order. */
  lemma {:induction false} TokenCount(groups: seq<string>)
    requires forall n | 0 <= n < |groups| :: IsGroup(groups[n])
    ensures |Tokens(groups)| == PieceCount(groups)
    decreases |groups|
  {
    if |groups| > 0 {
      PiecesCons(groups);
      assert forall n | 0 <= n < |groups| - 1 :: groups[1..][n] == groups[n + 1];
      TokenCount(groups[1..]);
    }
  }
}
