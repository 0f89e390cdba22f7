/**
  data/text.py: escaping user text for LIKE ... ESCAPE '!'.  Characters are compared through an
  arbitrary folding function, so the results hold for LIKE (the identity) and for any
  character-wise ILIKE.
 */
module Like {
  import opened Prelude

  type Fold = char -> char

  const ESCAPE: char := '!'

  // ---------------------------------------------------------------- the code

  /** str.replace with a one-character needle. */
  function Replace(s: string, c: char, with: string): string {
    if s == [] then [] else (if s[0] == c then with else [s[0]]) + Replace(s[1..], c, with)
  }

  function EscapeWildcard(query: string): string {
    var escaped := Replace(Replace(Replace(Replace(query, '!', "!!"), '%', "!%"), '_', "!_"), '[', "![");
    Replace(Replace(Replace(escaped, '\'', ""), '\"', ""), '`', "")
  }

  /** The pattern handed to the database by prefix_search. */
  function PrefixPattern(query: string): string { EscapeWildcard(query) + "%" }

  /** The pattern handed to the database by match_like. */
  function ContainsPattern(query: string): string { "%" + EscapeWildcard(query) + "%" }

  // ---------------------------------------------------------------- LIKE

  /**
    LIKE with escape character '!': the escape makes any following character literal, and a
    pattern that ends in a lone escape matches nothing.
   */
  predicate Matches(fold: Fold, pattern: string, text: string)
    decreases |pattern| + |text|
  {
    if pattern == [] then text == []
    else if pattern[0] == '%' then
      Matches(fold, pattern[1..], text) || (text != [] && Matches(fold, pattern, text[1..]))
    else if pattern[0] == '_' then text != [] && Matches(fold, pattern[1..], text[1..])
    else if pattern[0] == ESCAPE then
      && |pattern| > 1 && text != []
      && fold(pattern[1]) == fold(text[0])
      && Matches(fold, pattern[2..], text[1..])
    else text != [] && fold(pattern[0]) == fold(text[0]) && Matches(fold, pattern[1..], text[1..])
  }

  /** What one position of a pattern stands for. */
  datatype Token = AnyRun | AnyOne | Exactly(c: char)

  function Tokens(pattern: string): Option<seq<Token>> {
    if pattern == [] then Some([])
    else if pattern[0] == ESCAPE && |pattern| == 1 then None
    else
      var (token, rest) :=
        if pattern[0] == '%' then (AnyRun, pattern[1..])
        else if pattern[0] == '_' then (AnyOne, pattern[1..])
        else if pattern[0] == ESCAPE then (Exactly(pattern[1]), pattern[2..])
        else (Exactly(pattern[0]), pattern[1..]);
      match Tokens(rest)
      case None => None
      case Some(tokens) => Some([token] + tokens)
  }

  predicate Fits(fold: Fold, token: Token, part: string) {
    match token
    case AnyRun => true
    case AnyOne => |part| == 1
    case Exactly(c) => |part| == 1 && fold(part[0]) == fold(c)
  }

  function Joined(parts: seq<string>): string {
    if parts == [] then [] else parts[0] + Joined(parts[1..])
  }

  predicate Partition(fold: Fold, tokens: seq<Token>, parts: seq<string>, text: string) {
    && |parts| == |tokens|
    && Joined(parts) == text
    && forall i | 0 <= i < |parts| :: Fits(fold, tokens[i], parts[i])
  }

  /**
    The definition in section 8.5 of ISO/IEC 9075-2: the text can be cut into as many
    substrings as the pattern has positions, each fitting its position.
   */
  ghost predicate LikeBySubstrings(fold: Fold, pattern: string, text: string) {
    && Tokens(pattern).Some?
    && exists parts :: Partition(fold, Tokens(pattern).value, parts, text)
  }

  lemma PartitionCons(fold: Fold, token: Token, tokens: seq<Token>, part: string, parts: seq<string>, text: string)
    requires Fits(fold, token, part) && Partition(fold, tokens, parts, text)
    ensures Partition(fold, [token] + tokens, [part] + parts, part + text)
  {}

  lemma PartitionUncons(fold: Fold, tokens: seq<Token>, parts: seq<string>, text: string)
    requires tokens != [] && Partition(fold, tokens, parts, text)
    ensures |parts[0]| <= |text| && text[..|parts[0]|] == parts[0] && Fits(fold, tokens[0], parts[0])
    ensures Partition(fold, tokens[1..], parts[1..], text[|parts[0]|..])
  {}

  lemma {:induction false} MatchGivesPartition(fold: Fold, pattern: string, text: string) returns (parts: seq<string>)
    requires Matches(fold, pattern, text)
    ensures Tokens(pattern).Some? && Partition(fold, Tokens(pattern).value, parts, text)
    decreases |pattern| + |text|
  {
    if pattern == [] {
      parts := [];
    } else if pattern[0] == '%' {
      if Matches(fold, pattern[1..], text) {
        var rest := MatchGivesPartition(fold, pattern[1..], text);
        PartitionCons(fold, AnyRun, Tokens(pattern[1..]).value, "", rest, text);
        parts := [""] + rest;
        assert "" + text == text;
      } else {
        var whole := MatchGivesPartition(fold, pattern, text[1..]);
        var tokens := Tokens(pattern).value;
        PartitionUncons(fold, tokens, whole, text[1..]);
        PartitionCons(fold, AnyRun, tokens[1..], [text[0]] + whole[0], whole[1..], text[1..][|whole[0]|..]);
        parts := [[text[0]] + whole[0]] + whole[1..];
        assert [tokens[0]] + tokens[1..] == tokens;
        assert ([text[0]] + whole[0]) + text[1..][|whole[0]|..] == text;
      }
    } else {
      var k := if pattern[0] == ESCAPE then 2 else 1;
      var rest := MatchGivesPartition(fold, pattern[k..], text[1..]);
      PartitionCons(fold, Tokens(pattern).value[0], Tokens(pattern[k..]).value, [text[0]], rest, text[1..]);
      parts := [[text[0]]] + rest;
      assert [text[0]] + text[1..] == text;
    }
  }

  lemma {:induction false} PartitionGivesMatch(fold: Fold, pattern: string, parts: seq<string>, text: string)
    requires Tokens(pattern).Some? && Partition(fold, Tokens(pattern).value, parts, text)
    ensures Matches(fold, pattern, text)
    decreases |pattern| + |text|
  {
    if pattern != [] {
      var tokens := Tokens(pattern).value;
      PartitionUncons(fold, tokens, parts, text);
      if pattern[0] == '%' {
        if parts[0] == "" {
          PartitionGivesMatch(fold, pattern[1..], parts[1..], text);
        } else {
          PartitionCons(fold, AnyRun, tokens[1..], parts[0][1..], parts[1..], text[|parts[0]|..]);
          assert [tokens[0]] + tokens[1..] == tokens;
          assert parts[0][1..] + text[|parts[0]|..] == text[1..];
          PartitionGivesMatch(fold, pattern, [parts[0][1..]] + parts[1..], text[1..]);
        }
      } else {
        var k := if pattern[0] == ESCAPE then 2 else 1;
        PartitionGivesMatch(fold, pattern[k..], parts[1..], text[1..]);
      }
    }
  }

  /** The matcher decides exactly the standard's definition. */
  lemma MatchesIsLikeBySubstrings(fold: Fold, pattern: string, text: string)
    ensures Matches(fold, pattern, text) <==> LikeBySubstrings(fold, pattern, text)
  {
    if Matches(fold, pattern, text) {
      var parts := MatchGivesPartition(fold, pattern, text);
    }
    if LikeBySubstrings(fold, pattern, text) {
      var parts :| Partition(fold, Tokens(pattern).value, parts, text);
      PartitionGivesMatch(fold, pattern, parts, text);
    }
  }

  // ---------------------------------------------------------------- escaping, one character at a time

  predicate Quote(c: char) { c in {'\'', '\"', '`'} }

  predicate Special(c: char) { c in {'!', '%', '_', '['} }

  function WithoutQuotes(s: string): string {
    if s == [] then [] else (if Quote(s[0]) then [] else [s[0]]) + WithoutQuotes(s[1..])
  }

  function EscapedChars(s: string): string {
    if s == [] then [] else (if Special(s[0]) then ['!', s[0]] else [s[0]]) + EscapedChars(s[1..])
  }

  lemma {:induction false} ReplaceConcat(a: string, b: string, c: char, with: string)
    ensures Replace(a + b, c, with) == Replace(a, c, with) + Replace(b, c, with)
  {
    if a == [] {
      assert a + b == b;
    } else {
      assert (a + b)[1..] == a[1..] + b;
      ReplaceConcat(a[1..], b, c, with);
    }
  }

  lemma EscapeConcat(a: string, b: string)
    ensures EscapeWildcard(a + b) == EscapeWildcard(a) + EscapeWildcard(b)
  {
    ReplaceConcat(a, b, '!', "!!");
    var a1, b1 := Replace(a, '!', "!!"), Replace(b, '!', "!!");
    ReplaceConcat(a1, b1, '%', "!%");
    var a2, b2 := Replace(a1, '%', "!%"), Replace(b1, '%', "!%");
    ReplaceConcat(a2, b2, '_', "!_");
    var a3, b3 := Replace(a2, '_', "!_"), Replace(b2, '_', "!_");
    ReplaceConcat(a3, b3, '[', "![");
    var a4, b4 := Replace(a3, '[', "!["), Replace(b3, '[', "![");
    ReplaceConcat(a4, b4, '\'', "");
    var a5, b5 := Replace(a4, '\'', ""), Replace(b4, '\'', "");
    ReplaceConcat(a5, b5, '\"', "");
    ReplaceConcat(Replace(a5, '\"', ""), Replace(b5, '\"', ""), '`', "");
  }

  lemma {:induction false} ReplaceAbsent(s: string, c: char, with: string)
    requires c !in s
    ensures Replace(s, c, with) == s
  {
    if s != [] { ReplaceAbsent(s[1..], c, with); }
  }

  lemma ReplaceOne(x: char, with: string)
    ensures Replace([x], x, with) == with
  {
    assert [x][1..] == [];
  }

  /** What the quote removals leave of a text without quotes. */
  lemma NoQuotesToRemove(s: string)
    requires forall c <- s :: !Quote(c)
    ensures Replace(Replace(Replace(s, '\'', ""), '\"', ""), '`', "") == s
  {
    ReplaceAbsent(s, '\'', "");
    ReplaceAbsent(s, '\"', "");
    ReplaceAbsent(s, '`', "");
  }

  lemma EscapeExclamation()
    ensures EscapeWildcard(['!']) == ['!', '!']
  {
    ReplaceOne('!', "!!");
    var s := ['!', '!'];
    assert "!!" == s;
    ReplaceAbsent(s, '%', "!%");
    ReplaceAbsent(s, '_', "!_");
    ReplaceAbsent(s, '[', "![");
    NoQuotesToRemove(s);
  }

  lemma EscapeSpecial(x: char)
    requires Special(x) && x != '!'
    ensures EscapeWildcard([x]) == ['!', x]
  {
    ReplaceAbsent([x], '!', "!!");
    var s := ['!', x];
    if x == '%' { ReplaceOne('%', "!%"); assert "!%" == s; } else { ReplaceAbsent([x], '%', "!%"); }
    if x == '%' { ReplaceAbsent(s, '_', "!_"); }
    else if x == '_' { ReplaceOne('_', "!_"); assert "!_" == s; }
    else { ReplaceAbsent([x], '_', "!_"); }
    if x == '[' { ReplaceOne('[', "!["); assert "![" == s; } else { ReplaceAbsent(s, '[', "!["); }
    NoQuotesToRemove(s);
  }

  lemma NoWildcardsToEscape(x: char)
    requires !Special(x)
    ensures EscapeWildcard([x]) == Replace(Replace(Replace([x], '\'', ""), '\"', ""), '`', "")
  {
    ReplaceAbsent([x], '!', "!!");
    ReplaceAbsent([x], '%', "!%");
    ReplaceAbsent([x], '_', "!_");
    ReplaceAbsent([x], '[', "![");
  }

  lemma QuoteIsRemoved(x: char)
    requires Quote(x)
    ensures Replace(Replace(Replace([x], '\'', ""), '\"', ""), '`', "") == []
  {
    ReplaceOne(x, "");
    if x != '\'' { ReplaceAbsent([x], '\'', ""); }
    if x == '`' { ReplaceAbsent([x], '\"', ""); }
  }

  /** One character: quotes go, the escape character and the wildcards are escaped, anything else stays. */
  lemma EscapeOne(x: char)
    ensures EscapeWildcard([x]) ==
              if x == '\'' || x == '\"' || x == '`' then []
              else if x == '!' || x == '%' || x == '_' || x == '[' then ['!', x]
              else [x]
  {
    if x == '!' {
      EscapeExclamation();
    } else if Special(x) {
      EscapeSpecial(x);
    } else {
      NoWildcardsToEscape(x);
      if Quote(x) { QuoteIsRemoved(x); } else { NoQuotesToRemove([x]); }
    }
  }

  /** The chain of whole-string replacements is a per-character map, and removing quotes orphans no escape. */
  lemma {:induction false} EscapeIsPerCharacter(query: string)
    ensures EscapeWildcard(query) == EscapedChars(WithoutQuotes(query))
  {
    if query != [] {
      assert query == [query[0]] + query[1..];
      EscapeConcat([query[0]], query[1..]);
      EscapeOne(query[0]);
      EscapeIsPerCharacter(query[1..]);
      var w := WithoutQuotes(query);
      if Quote(query[0]) {
        assert w == WithoutQuotes(query[1..]);
      } else {
        assert w[1..] == WithoutQuotes(query[1..]);
      }
    }
  }

  // ---------------------------------------------------------------- exactness

  predicate SameFolded(fold: Fold, a: string, b: string) {
    |a| == |b| && forall i | 0 <= i < |a| :: fold(a[i]) == fold(b[i])
  }

  lemma SameFoldedCons(fold: Fold, a: string, b: string)
    requires a != [] && b != []
    ensures SameFolded(fold, a, b) <==> fold(a[0]) == fold(b[0]) && SameFolded(fold, a[1..], b[1..])
  {
    if SameFolded(fold, a[1..], b[1..]) && fold(a[0]) == fold(b[0]) {
      forall i | 0 <= i < |a| ensures fold(a[i]) == fold(b[i]) {
        if i > 0 { assert a[i] == a[1..][i - 1] && b[i] == b[1..][i - 1]; }
      }
    }
  }

  /** An escaped character in front of a pattern consumes exactly that character. */
  lemma EscapedHead(fold: Fold, c: char, tail: string, text: string)
    ensures Matches(fold, (if Special(c) then ['!', c] else [c]) + tail, text) <==>
              text != [] && fold(c) == fold(text[0]) && Matches(fold, tail, text[1..])
  {
    var pattern := (if Special(c) then ['!', c] else [c]) + tail;
    assert if Special(c) then pattern[2..] == tail else pattern[1..] == tail;
  }

  /** Escaped text in a pattern consumes exactly that text. */
  lemma {:induction false} EscapedIsLiteral(fold: Fold, literal: string, rest: string, text: string)
    ensures Matches(fold, EscapedChars(literal) + rest, text) <==>
              && |literal| <= |text|
              && SameFolded(fold, literal, text[..|literal|])
              && Matches(fold, rest, text[|literal|..])
    decreases |literal|
  {
    if literal == [] {
      assert EscapedChars(literal) + rest == rest;
      assert text[0..] == text;
    } else {
      var head := if Special(literal[0]) then ['!', literal[0]] else [literal[0]];
      var tail := EscapedChars(literal[1..]) + rest;
      assert EscapedChars(literal) + rest == head + tail;
      EscapedHead(fold, literal[0], tail, text);
      if text != [] {
        EscapedIsLiteral(fold, literal[1..], rest, text[1..]);
        if |literal| <= |text| {
          assert text[1..][..|literal[1..]|] == text[..|literal|][1..];
          SameFoldedCons(fold, literal, text[..|literal|]);
          assert text[1..][|literal[1..]|..] == text[|literal|..];
        }
      }
    }
  }

  lemma {:induction false} PercentMatchesSomeSuffix(fold: Fold, rest: string, text: string)
    ensures Matches(fold, "%" + rest, text) <==> exists k :: 0 <= k <= |text| && Matches(fold, rest, text[k..])
    decreases |text|
  {
    var pattern := "%" + rest;
    assert pattern[1..] == rest;
    assert text[0..] == text;
    if text != [] {
      PercentMatchesSomeSuffix(fold, rest, text[1..]);
      forall k | 0 <= k <= |text[1..]| ensures text[1..][k..] == text[k + 1..] {}
      if Matches(fold, pattern, text[1..]) {
        var k :| 0 <= k <= |text[1..]| && Matches(fold, rest, text[1..][k..]);
        assert Matches(fold, rest, text[k + 1..]);
      }
      if k :| 0 <= k <= |text| && Matches(fold, rest, text[k..]) && k > 0 {
        assert text[1..][k - 1..] == text[k..];
      }
    }
  }

  lemma PercentMatchesAll(fold: Fold, text: string)
    ensures Matches(fold, "%", text)
  {}

  /** The text less the given characters. */
  function Without(s: string, dropped: set<char>): string {
    if s == [] then [] else (if s[0] in dropped then [] else [s[0]]) + Without(s[1..], dropped)
  }

  lemma {:induction false} QuotesAreThree(s: string)
    ensures WithoutQuotes(s) == Without(s, {'\'', '\"', '`'})
  {
    if s != [] { QuotesAreThree(s[1..]); }
  }

  /** `q` occurs in `field` at position `k`. */
  predicate OccursAt(fold: Fold, q: string, field: string, k: nat) {
    k + |q| <= |field| && SameFolded(fold, q, field[k..k + |q|])
  }

  lemma EscapedThenAnything(fold: Fold, q: string, field: string, k: nat)
    requires k <= |field|
    ensures Matches(fold, EscapedChars(q) + "%", field[k..]) <==> OccursAt(fold, q, field, k)
  {
    EscapedIsLiteral(fold, q, "%", field[k..]);
    if |q| <= |field[k..]| {
      PercentMatchesAll(fold, field[k..][|q|..]);
      assert field[k..][..|q|] == field[k..k + |q|];
    }
  }

  /** prefix_search finds exactly the fields that start with the query, quotes aside. */
  lemma PrefixSearchIsExact(fold: Fold, query: string, field: string)
    ensures var q := Without(query, {'\'', '\"', '`'});
            Matches(fold, PrefixPattern(query), field) <==> OccursAt(fold, q, field, 0)
  {
    QuotesAreThree(query);
    EscapeIsPerCharacter(query);
    EscapedThenAnything(fold, WithoutQuotes(query), field, 0);
    assert field[0..] == field;
  }

  /** match_like finds exactly the fields that contain the query, quotes aside. */
  lemma MatchLikeIsExact(fold: Fold, query: string, field: string)
    ensures var q := Without(query, {'\'', '\"', '`'});
            Matches(fold, ContainsPattern(query), field) <==> exists k :: OccursAt(fold, q, field, k)
  {
    QuotesAreThree(query);
    var q := WithoutQuotes(query);
    EscapeIsPerCharacter(query);
    var rest := EscapedChars(q) + "%";
    assert ContainsPattern(query) == "%" + rest;
    PercentMatchesSomeSuffix(fold, rest, field);
    forall k: nat | k <= |field| ensures Matches(fold, rest, field[k..]) <==> OccursAt(fold, q, field, k) {
      EscapedThenAnything(fold, q, field, k);
    }
  }
}
