/** digest/digest_tools.py: parsing digests and turning them into content paths. */
module Digests {
  import opened Prelude

  datatype Digest = Digest(alg: string, hash: string)

  predicate AlgChar(c: char) {
    'a' <= c <= 'z' || 'A' <= c <= 'Z' || '0' <= c <= '9' || c in {'_', '+', '.', '-'}
  }

  predicate HexChar(c: char) { '0' <= c <= '9' || 'a' <= c <= 'f' || 'A' <= c <= 'F' }

  predicate AllAlg(s: string) { forall i | 0 <= i < |s| :: AlgChar(s[i]) }
  predicate AllHex(s: string) { forall i | 0 <= i < |s| :: HexChar(s[i]) }

  predicate WellFormed(d: Digest) { d.alg != "" && AllAlg(d.alg) && d.hash != "" && AllHex(d.hash) }

  function Print(d: Digest): string { d.alg + ":" + d.hash }

  /** The length of the longest prefix in the algorithm's character class: a greedy group. */
  function AlgLength(s: string): (n: nat)
    ensures n <= |s| && AllAlg(s[..n]) && (n < |s| ==> !AlgChar(s[n]))
  {
    if s == [] || !AlgChar(s[0]) then 0
    else
      var n := AlgLength(s[1..]);
      assert s[..n + 1] == [s[0]] + s[1..][..n];
      n + 1
  }

  /** The match must cover the whole text; None stands for InvalidDigestException. */
  function Parse(s: string): Option<Digest> {
    var n := AlgLength(s);
    if n > 0 && n + 1 < |s| && s[n] == ':' && AllHex(s[n + 1..]) then Some(Digest(s[..n], s[n + 1..])) else None
  }

  /** Parsing inverts printing on well-formed digests, and only well-formed digests are ever parsed. */
  lemma ParsePrint(d: Digest)
    ensures WellFormed(d) <==> Parse(Print(d)) == Some(d)
  {
    var s := Print(d);
    assert s[|d.alg|] == ':' && s[..|d.alg|] == d.alg && s[|d.alg| + 1..] == d.hash;
    var n := AlgLength(s);
    if WellFormed(d) {
      assert !AlgChar(s[|d.alg|]);
      assert n == |d.alg|;
    }
  }

  /** Printing inverts parsing: a valid digest prints back to itself. */
  lemma PrintParse(s: string)
    ensures Parse(s).Some? ==> WellFormed(Parse(s).value) && Print(Parse(s).value) == s
    ensures Parse(s).Some? <==> exists d :: WellFormed(d) && s == Print(d)
  {
    if Parse(s).Some? {
      var n := AlgLength(s);
      assert s == s[..n] + [s[n]] + s[n + 1..];
      assert WellFormed(Parse(s).value);
    }
    if d :| WellFormed(d) && s == Print(d) { ParsePrint(d); }
  }

  /** A valid digest, character by character: a name, a colon, and hexadecimal digits to the end. */
  lemma ValidIff(s: string)
    ensures Parse(s).Some? <==>
              exists n :: 0 < n < |s| - 1 && s[n] == ':'
                && (forall i | 0 <= i < n ::
                      'a' <= s[i] <= 'z' || 'A' <= s[i] <= 'Z' || '0' <= s[i] <= '9'
                      || s[i] == '_' || s[i] == '+' || s[i] == '.' || s[i] == '-')
                && (forall i | n < i < |s| :: '0' <= s[i] <= '9' || 'a' <= s[i] <= 'f' || 'A' <= s[i] <= 'F')
  {
    var m := AlgLength(s);
    if Parse(s).Some? {
      forall i | m < i < |s| ensures HexChar(s[i]) { assert s[i] == s[m + 1..][i - (m + 1)]; }
      forall i | 0 <= i < m ensures AlgChar(s[i]) { assert s[i] == s[..m][i]; }
    }
    if n :| 0 < n < |s| - 1 && s[n] == ':'
            && (forall i | 0 <= i < n :: AlgChar(s[i])) && (forall i | n < i < |s| :: HexChar(s[i])) {
      assert !AlgChar(s[n]);
      assert forall i | 0 <= i < m :: s[i] == s[..m][i];
      assert m == n;
    }
  }

  /** digests_equal compares the printed forms of two parsed digests; None if either is invalid. */
  function DigestsEqual(lhs: string, rhs: string): Option<bool> {
    if Parse(lhs).Some? && Parse(rhs).Some? then Some(Print(Parse(lhs).value) == Print(Parse(rhs).value)) else None
  }

  lemma DigestsEqualIsTextEquality(lhs: string, rhs: string)
    requires Parse(lhs).Some? && Parse(rhs).Some?
    ensures DigestsEqual(lhs, rhs) == Some(lhs == rhs)
  {
    PrintParse(lhs);
    PrintParse(rhs);
  }

  // ---------------------------------------------------------------- content paths

  predicate Breaks(c: char) { c == '+' || c == '.' }

  function WithSlashes(s: string): string {
    if s == [] then [] else [if Breaks(s[0]) then '/' else s[0]] + WithSlashes(s[1..])
  }

  /** Runs of slashes become one. */
  function Collapse(s: string): string {
    if s == [] then []
    else if s[0] == '/' && |s| > 1 && s[1] == '/' then Collapse(s[1..])
    else [s[0]] + Collapse(s[1..])
  }

  function LeftStrip(s: string): string {
    if s != [] && s[0] == '/' then LeftStrip(s[1..]) else s
  }

  /** os.path.join of two components, as POSIX defines it. */
  function PathJoin(a: string, b: string): string {
    if b != [] && b[0] == '/' then b
    else if a == [] || a[|a| - 1] == '/' then a + b
    else a + "/" + b
  }

  /** hash[0:2].zfill(2) */
  function Prefix(hash: string): string {
    var two := if |hash| < 2 then hash else hash[..2];
    seq(2 - |two|, _ => '0') + two
  }

  function Normalized(alg: string): string { LeftStrip(Collapse(WithSlashes(alg))) }

  function PathOf(d: Digest): string {
    PathJoin(PathJoin(Normalized(d.alg), Prefix(d.hash)), d.hash)
  }

  function ContentPath(s: string): Option<string> {
    match Parse(s)
    case None => None
    case Some(d) => Some(PathOf(d))
  }

  // ---------------------------------------------------------------- what a path consists of

  /** The non-empty pieces of an algorithm name between '+' and '.'. */
  function Words(s: string): seq<string> {
    if s == [] then []
    else if Breaks(s[0]) then Words(s[1..])
    else if |s| == 1 || Breaks(s[1]) then [[s[0]]] + Words(s[1..])
    else
      var rest := Words(s[1..]);
      if rest == [] then [[s[0]]] else [[s[0]] + rest[0]] + rest[1..]
  }

  /** Each word followed by a slash. */
  function Rendered(words: seq<string>): string {
    if words == [] then [] else words[0] + "/" + Rendered(words[1..])
  }

  function Terminated(s: string): string {
    if s == [] || s[|s| - 1] == '/' then s else s + "/"
  }

  predicate PlainChar(c: char) { c != '/' && !Breaks(c) }

  lemma {:induction false} WordsArePlain(s: string)
    requires AllAlg(s)
    ensures forall w <- Words(s) :: w != "" && forall i | 0 <= i < |w| :: PlainChar(w[i])
  {
    if s != [] {
      WordsArePlain(s[1..]);
    }
  }

  lemma StartsWithWord(s: string)
    requires s != [] && !Breaks(s[0])
    ensures Words(s) != []
  {}

  /** After collapsing there is at most one leading slash, and it is there exactly when the name starts with a break. */
  lemma {:induction false} CollapsedSplits(s: string)
    requires AllAlg(s)
    ensures Collapse(WithSlashes(s)) == (if s != [] && Breaks(s[0]) then "/" else "") + Normalized(s)
    ensures s != [] && Breaks(s[0]) ==> Normalized(s) == Normalized(s[1..])
    ensures s != [] && !Breaks(s[0]) ==> Normalized(s) == [s[0]] + Collapse(WithSlashes(s[1..]))
  {
    if s != [] {
      var t := WithSlashes(s);
      assert t[1..] == WithSlashes(s[1..]);
      CollapsedSplits(s[1..]);
      if Breaks(s[0]) {
        if s[1..] != [] && Breaks(s[1..][0]) {
          assert Collapse(t) == Collapse(t[1..]);
        } else {
          assert Collapse(t) == "/" + Collapse(t[1..]);
          assert Collapse(t)[1..] == Collapse(t[1..]);
          assert LeftStrip(Collapse(t)) == LeftStrip(Collapse(t[1..]));
        }
      }
    }
  }

  lemma TerminatedCons(c: char, s: string)
    requires c != '/' && s != []
    ensures Terminated([c] + s) == [c] + Terminated(s)
  {}

  lemma RenderedNewWord(c: char, words: seq<string>)
    ensures Rendered([[c]] + words) == [c] + "/" + Rendered(words)
  {
    assert ([[c]] + words)[1..] == words;
  }

  lemma RenderedLongerWord(c: char, word: string, words: seq<string>)
    ensures Rendered([[c] + word] + words) == [c] + Rendered([word] + words)
  {
    var rest := Rendered(words);
    assert ([[c] + word] + words)[1..] == words && ([word] + words)[1..] == words;
    assert [c] + word + "/" + rest == [c] + (word + "/" + rest);
  }

  /** How normalizing treats one more leading character. */
  lemma NormalizedCons(c: char, u: string)
    requires AllAlg([c] + u)
    ensures Normalized([c] + u) ==
              if Breaks(c) then Normalized(u)
              else [c] + ((if u != [] && Breaks(u[0]) then "/" else "") + Normalized(u))
    ensures u != [] && !Breaks(u[0]) ==> Normalized(u) != []
    ensures Normalized([]) == []
  {
    assert ([c] + u)[1..] == u;
    CollapsedSplits([c] + u);
    assert AllAlg(u) by { assert forall i | 0 <= i < |u| :: u[i] == ([c] + u)[i + 1]; }
    CollapsedSplits(u);
  }

  lemma WordsCons(c: char, u: string)
    ensures Words([c] + u) ==
              if Breaks(c) then Words(u)
              else if u == [] || Breaks(u[0]) || Words(u) == [] then [[c]] + Words(u)
              else [[c] + Words(u)[0]] + Words(u)[1..]
  {}

  /** One more character starts a word of its own. */
  lemma TerminatedNewWord(c: char, slash: bool, n: string, words: seq<string>)
    requires c != '/' && Terminated(n) == Rendered(words) && (slash || n == [])
    ensures Terminated([c] + ((if slash then "/" else "") + n)) == Rendered([[c]] + words)
  {
    RenderedNewWord(c, words);
    if slash {
      TerminatedCons(c, "/" + n);
      SlashThen(n);
      assert [c] + "/" + Terminated(n) == [c] + ("/" + Terminated(n));
    } else {
      assert [c] + ("" + n) == [c];
    }
  }

  /** One more character lengthens the first word. */
  lemma TerminatedLongerWord(c: char, n: string, words: seq<string>)
    requires c != '/' && n != [] && words != [] && Terminated(n) == Rendered(words)
    ensures Terminated([c] + ("" + n)) == Rendered([[c] + words[0]] + words[1..])
  {
    RenderedLongerWord(c, words[0], words[1..]);
    assert [words[0]] + words[1..] == words;
    assert "" + n == n;
    TerminatedCons(c, n);
  }

  lemma {:induction false} NormalizedIsWords(s: string)
    requires AllAlg(s)
    ensures Terminated(Normalized(s)) == Rendered(Words(s))
    decreases |s|
  {
    if s != [] {
      var c, u := s[0], s[1..];
      assert [c] + u == s;
      NormalizedIsWords(u);
      NormalizedCons(c, u);
      WordsCons(c, u);
      if !Breaks(c) {
        var slash := u != [] && Breaks(u[0]);
        if u != [] && !slash { StartsWithWord(u); }
        if slash || Normalized(u) == [] {
          TerminatedNewWord(c, slash, Normalized(u), Words(u));
        } else {
          TerminatedLongerWord(c, Normalized(u), Words(u));
        }
      }
    }
  }

  lemma SlashThen(s: string)
    ensures Terminated("/" + s) == "/" + Terminated(s)
  {}

  /** The path of a well-formed digest is the words of its algorithm, the prefix and the hash, slash-separated. */
  lemma PathIsSegments(d: Digest)
    requires WellFormed(d)
    ensures PathOf(d) == Rendered(Words(d.alg)) + Prefix(d.hash) + "/" + d.hash
  {
    NormalizedIsWords(d.alg);
    var n, p := Normalized(d.alg), Prefix(d.hash);
    PrefixIsHex(d.hash);
    assert p[0] != '/' && p[1] != '/' && d.hash[0] != '/';
    assert PathJoin(n, p) == Terminated(n) + p;
    var q := PathJoin(n, p);
    assert q[|q| - 1] == p[1];
  }

  /** str.split("/") */
  function SplitSlash(s: string): (parts: seq<string>)
    ensures parts != []
  {
    if s == [] then [[]]
    else
      var rest := SplitSlash(s[1..]);
      if s[0] == '/' then [[]] + rest else [[s[0]] + rest[0]] + rest[1..]
  }

  lemma {:induction false} SplitAtSlash(word: string, rest: string)
    requires '/' !in word
    ensures SplitSlash(word + "/" + rest) == [word] + SplitSlash(rest)
  {
    var s := word + "/" + rest;
    if word == [] {
      assert s[1..] == rest;
    } else {
      assert s[1..] == word[1..] + "/" + rest;
      SplitAtSlash(word[1..], rest);
      assert [word[0]] + word[1..] == word;
    }
  }

  lemma {:induction false} SplitWord(word: string)
    requires '/' !in word
    ensures SplitSlash(word) == [word]
  {
    if word != [] {
      SplitWord(word[1..]);
      assert [word[0]] + word[1..] == word;
    }
  }

  lemma {:induction false} SplitRendered(words: seq<string>, rest: string)
    requires forall w <- words :: '/' !in w
    ensures SplitSlash(Rendered(words) + rest) == words + SplitSlash(rest)
  {
    if words == [] {
      assert Rendered(words) + rest == rest;
    } else {
      assert Rendered(words) + rest == words[0] + "/" + (Rendered(words[1..]) + rest);
      SplitAtSlash(words[0], Rendered(words[1..]) + rest);
      SplitRendered(words[1..], rest);
      assert words == [words[0]] + words[1..];
    }
  }

  lemma PrefixIsHex(hash: string)
    requires hash != "" && AllHex(hash)
    ensures |Prefix(hash)| == 2 && AllHex(Prefix(hash)) && '/' !in Prefix(hash) && '/' !in hash
  {}

  lemma TwoSegments(words: seq<string>, p: string, hash: string)
    requires (forall w <- words :: '/' !in w) && '/' !in p && '/' !in hash
    ensures SplitSlash(Rendered(words) + p + "/" + hash) == words + [p, hash]
  {
    var tail := p + "/" + hash;
    assert SplitSlash(tail) == [p, hash] by {
      SplitAtSlash(p, hash);
      SplitWord(hash);
    }
    SplitRendered(words, tail);
    assert Rendered(words) + p + "/" + hash == Rendered(words) + tail;
  }

  lemma PathSegments(d: Digest)
    requires WellFormed(d)
    ensures SplitSlash(PathOf(d)) == Words(d.alg) + [Prefix(d.hash), d.hash]
  {
    PathIsSegments(d);
    WordsArePlain(d.alg);
    PrefixIsHex(d.hash);
    TwoSegments(Words(d.alg), Prefix(d.hash), d.hash);
  }

  lemma PrefixShape(hash: string)
    requires hash != ""
    ensures Prefix(hash) == if |hash| == 1 then ['0'] + hash else hash[..2]
  {}

  predicate CleanSegment(g: string) { g != "" && '.' !in g && '+' !in g && '/' !in g }

  lemma SegmentsAreClean(d: Digest)
    requires WellFormed(d)
    ensures forall g <- SplitSlash(PathOf(d)) :: CleanSegment(g)
  {
    PathSegments(d);
    WordsArePlain(d.alg);
    PrefixIsHex(d.hash);
    forall g | g in Words(d.alg) + [Prefix(d.hash), d.hash] ensures CleanSegment(g) {
      assert g in Words(d.alg) || g == Prefix(d.hash) || g == d.hash;
    }
  }

  /**
    Content paths are clean: for every valid digest the path is relative, no segment is empty or a
    dot segment, and it ends in a two-character prefix and the hash.
   */
  lemma ContentPathIsClean(s: string)
    requires Parse(s).Some?
    ensures var path := ContentPath(s).value;
            var segments := SplitSlash(path);
            var hash := Parse(s).value.hash;
            && path != "" && path[0] != '/'
            && |segments| >= 2
            && segments[|segments| - 1] == hash
            && |segments[|segments| - 2]| == 2
            && segments[|segments| - 2] == (if |hash| == 1 then ['0'] + hash else hash[..2])
            && forall g <- segments :: CleanSegment(g)
  {
    var d := Parse(s).value;
    PrintParse(s);
    PathSegments(d);
    PrefixIsHex(d.hash);
    PrefixShape(d.hash);
    SegmentsAreClean(d);
    FirstSegment(PathOf(d));
    assert SplitSlash(PathOf(d))[0] in SplitSlash(PathOf(d));
  }

  lemma FirstSegment(path: string)
    ensures path == "" || path[0] == '/' ==> SplitSlash(path)[0] == ""
  {}

  /**
    Two valid digests share a content path if and only if they have the same hash and algorithm
    names that differ only in how their words are separated.
   */
  lemma SamePathIff(s: string, t: string)
    requires Parse(s).Some? && Parse(t).Some?
    ensures ContentPath(s) == ContentPath(t) <==>
              && Parse(s).value.hash == Parse(t).value.hash
              && Words(Parse(s).value.alg) == Words(Parse(t).value.alg)
  {
    var d, e := Parse(s).value, Parse(t).value;
    PrintParse(s);
    PrintParse(t);
    PathSegments(d);
    PathSegments(e);
    if PathOf(d) == PathOf(e) {
      var a, b := Words(d.alg) + [Prefix(d.hash), d.hash], Words(e.alg) + [Prefix(e.hash), e.hash];
      assert a == b;
      assert a[|a| - 1] == d.hash && b[|b| - 1] == e.hash;
      assert a[..|a| - 2] == Words(d.alg) && b[..|b| - 2] == Words(e.alg);
    }
    if d.hash == e.hash && Words(d.alg) == Words(e.alg) {
      PathIsSegments(d);
      PathIsSegments(e);
    }
  }

  lemma {:induction false} UnbrokenNameIsOneWord(s: string)
    requires s != [] && forall i | 0 <= i < |s| :: !Breaks(s[i])
    ensures Words(s) == [s]
  {
    if |s| > 1 {
      UnbrokenNameIsOneWord(s[1..]);
      assert Words(s) == [[s[0]] + s[1..]] + [s[1..]][1..];
      assert [s[0]] + s[1..] == s;
    } else {
      assert s == [s[0]];
    }
  }

  /** Over algorithms without '+' and '.', a content path determines the digest. */
  lemma PathDeterminesDigest(s: string, t: string)
    requires Parse(s).Some? && Parse(t).Some? && ContentPath(s) == ContentPath(t)
    requires '+' !in Parse(s).value.alg && '.' !in Parse(s).value.alg
    requires '+' !in Parse(t).value.alg && '.' !in Parse(t).value.alg
    ensures s == t
  {
    var d, e := Parse(s).value, Parse(t).value;
    SamePathIff(s, t);
    PrintParse(s);
    PrintParse(t);
    forall i | 0 <= i < |d.alg| ensures !Breaks(d.alg[i]) { assert d.alg[i] in d.alg + e.alg; }
    forall i | 0 <= i < |e.alg| ensures !Breaks(e.alg[i]) { assert e.alg[i] in d.alg + e.alg; }
    UnbrokenNameIsOneWord(d.alg);
    UnbrokenNameIsOneWord(e.alg);
    assert [d.alg][0] == [e.alg][0];
  }
}
