/** auth/scopes.py: scopes, their names, and the subset test on scope strings. */
module Scopes {
  import opened Prelude

  datatype Scope =
    | ReadRepo | WriteRepo | AdminRepo | CreateRepo | ReadUser | AdminUser | OrgAdmin | DirectLogin | SuperUser

  function ScopeName(s: Scope): string {
    match s
    case ReadRepo => "repo:read"
    case WriteRepo => "repo:write"
    case AdminRepo => "repo:admin"
    case CreateRepo => "repo:create"
    case ReadUser => "user:read"
    case AdminUser => "user:admin"
    case OrgAdmin => "org:admin"
    case DirectLogin => "direct_user_login"
    case SuperUser => "super:user"
  }

  /** The scopes a string may name.  DirectLogin is not among them. */
  const ALL_SCOPES: seq<Scope> :=
    [ReadRepo, WriteRepo, AdminRepo, CreateRepo, ReadUser, OrgAdmin, SuperUser, AdminUser]

  function Find(scopes: seq<Scope>, name: string): Option<Scope> {
    if scopes == [] then None
    else if ScopeName(scopes[0]) == name then Some(scopes[0])
    else Find(scopes[1..], name)
  }

  /** ALL_SCOPES.get(name, None) */
  function Lookup(name: string): Option<Scope> { Find(ALL_SCOPES, name) }

  /** IMPLIED_SCOPES; DirectLogin has no entry there and no scope string leads to it. */
  function ImpliedBy(s: Scope): set<Scope> {
    match s
    case AdminRepo => {AdminRepo, WriteRepo, ReadRepo}
    case WriteRepo => {WriteRepo, ReadRepo}
    case DirectLogin => {}
    case _ => {s}
  }

  predicate Separator(c: char) { c == ' ' || c == ',' }

  /** Puts one more character in front of a split text. */
  function ConsChar(c: char, words: seq<string>): (r: seq<string>)
    requires words != []
    ensures r != []
  {
    if Separator(c) then [[]] + words else [[c] + words[0]] + words[1..]
  }

  /** re.split(" |,", s) */
  function Split(s: string): (words: seq<string>)
    ensures words != []
  {
    if s == [] then [[]] else ConsChar(s[0], Split(s[1..]))
  }

  /** The scopes named by a string under a given dictionary; none at all if some name is unknown. */
  function ScopesUnder(lookup: string -> Option<Scope>, s: string): set<Scope> {
    if forall name <- Split(s) :: lookup(name).Some?
    then set name | name in Split(s) && lookup(name).Some? :: lookup(name).value
    else {}
  }

  function ScopesFromString(s: string): set<Scope> { ScopesUnder(Lookup, s) }

  function Implied(scopes: set<Scope>): set<Scope> {
    set s, t | s in scopes && t in ImpliedBy(s) :: t
  }

  predicate IsSubsetString(full: string, expected: string) {
    var fullScopes := ScopesFromString(full);
    fullScopes != {} && ScopesFromString(expected) <= Implied(fullScopes)
  }

  // ---------------------------------------------------------------- parsing

  /** Splitting at a separator is splitting both sides. */
  lemma {:induction false} SplitAtSeparator(a: string, c: char, b: string)
    requires c == ' ' || c == ','
    ensures Split(a + [c] + b) == Split(a) + Split(b)
    decreases |a|
  {
    var s := a + [c] + b;
    if a == [] {
      assert s[1..] == b;
    } else {
      assert s[1..] == a[1..] + [c] + b;
      SplitAtSeparator(a[1..], c, b);
      ConsCharAppend(a[0], Split(a[1..]), Split(b));
    }
  }

  lemma ConsCharAppend(c: char, words: seq<string>, tail: seq<string>)
    requires words != []
    ensures ConsChar(c, words + tail) == ConsChar(c, words) + tail
  {}

  lemma {:induction false} SplitWord(word: string)
    requires ' ' !in word && ',' !in word
    ensures Split(word) == [word]
  {
    if word != [] {
      SplitWord(word[1..]);
      assert [word[0]] + word[1..] == word;
    }
  }

  lemma EmptyOnlyWhenInvalid(lookup: string -> Option<Scope>, s: string)
    ensures ScopesUnder(lookup, s) != {} <==> forall name <- Split(s) :: lookup(name).Some?
  {
    var first := Split(s)[0];
    assert first in Split(s);
    if forall name <- Split(s) :: lookup(name).Some? {
      assert lookup(first).value in ScopesUnder(lookup, s);
    }
  }

  /** Two scope strings joined by either separator denote the union when both are valid, and nothing otherwise. */
  lemma ScopesOfConcatenation(lookup: string -> Option<Scope>, a: string, c: char, b: string)
    requires c == ' ' || c == ','
    ensures ScopesUnder(lookup, a + [c] + b) ==
              if ScopesUnder(lookup, a) != {} && ScopesUnder(lookup, b) != {}
              then ScopesUnder(lookup, a) + ScopesUnder(lookup, b) else {}
  {
    SplitAtSeparator(a, c, b);
    assert forall x :: x in Split(a) + Split(b) <==> x in Split(a) || x in Split(b);
    EmptyOnlyWhenInvalid(lookup, a);
    EmptyOnlyWhenInvalid(lookup, b);
  }

  /** Length, first and sixth character tell the names apart. */
  lemma NamesDistinct(s: Scope, t: Scope)
    requires ScopeName(s) == ScopeName(t)
    ensures s == t
  {}

  lemma {:induction false} FindFinds(scopes: seq<Scope>, s: Scope)
    ensures Find(scopes, ScopeName(s)) == if s in scopes then Some(s) else None
  {
    if scopes != [] {
      if ScopeName(scopes[0]) == ScopeName(s) { NamesDistinct(scopes[0], s); }
      FindFinds(scopes[1..], s);
    }
  }

  lemma NameHasNoSeparator(s: Scope)
    ensures ' ' !in ScopeName(s) && ',' !in ScopeName(s)
  {
    match s
    case ReadRepo => case WriteRepo => case AdminRepo => case CreateRepo => case ReadUser =>
    case AdminUser => case OrgAdmin => case DirectLogin => case SuperUser =>
  }

  function JoinWords(words: seq<string>): string
    requires words != []
  {
    if |words| == 1 then words[0] else words[0] + " " + JoinWords(words[1..])
  }

  function Elements(scopes: seq<Scope>): set<Scope> { set s | s in scopes }

  lemma OneMoreWordParses(lookup: string -> Option<Scope>, word: string, s: Scope, text: string, scopes: seq<Scope>)
    requires ScopesUnder(lookup, word) == {s} && ScopesUnder(lookup, text) == Elements(scopes) && scopes != []
    ensures ScopesUnder(lookup, word + " " + text) == Elements([s] + scopes)
  {
    ScopesOfConcatenation(lookup, word, ' ', text);
    assert scopes[0] in Elements(scopes);
    assert Elements([s] + scopes) == {s} + Elements(scopes);
  }

  /** Joining texts that each denote one scope denotes all of them. */
  lemma {:induction false} JoinedWordsParse(lookup: string -> Option<Scope>, words: seq<string>, scopes: seq<Scope>)
    requires |words| == |scopes| > 0
    requires forall i | 0 <= i < |words| :: ScopesUnder(lookup, words[i]) == {scopes[i]}
    ensures ScopesUnder(lookup, JoinWords(words)) == Elements(scopes)
  {
    if |words| == 1 {
      assert scopes == [scopes[0]];
    } else {
      JoinedWordsParse(lookup, words[1..], scopes[1..]);
      OneMoreWordParses(lookup, words[0], scopes[0], JoinWords(words[1..]), scopes[1..]);
      assert scopes == [scopes[0]] + scopes[1..];
    }
  }

  lemma NameParses(s: Scope)
    requires s != DirectLogin
    ensures ScopesUnder(Lookup, ScopeName(s)) == {s}
  {
    var name := ScopeName(s);
    NameHasNoSeparator(s);
    SplitWord(name);
    FindFinds(ALL_SCOPES, s);
    assert Lookup(name) == Some(s);
    assert name in Split(name);
  }

  /** Writing out any non-empty list of scopes, separated by spaces, and parsing it gives that set back. */
  lemma ScopesRoundTrip(scopes: seq<Scope>, names: seq<string>)
    requires scopes != [] && DirectLogin !in scopes
    requires |names| == |scopes| && forall i | 0 <= i < |names| :: names[i] == ScopeName(scopes[i])
    ensures ScopesFromString(JoinWords(names)) == Elements(scopes)
  {
    forall i | 0 <= i < |names| ensures ScopesUnder(Lookup, names[i]) == {scopes[i]} {
      NameParses(scopes[i]);
    }
    JoinedWordsParse(Lookup, names, scopes);
  }

  lemma {:induction false} FoundIsListed(scopes: seq<Scope>, name: string)
    ensures Find(scopes, name).Some? ==> Find(scopes, name).value in scopes
  {
    if scopes != [] { FoundIsListed(scopes[1..], name); }
  }

  lemma DirectLoginIsNeverParsed(s: string)
    ensures DirectLogin !in ScopesFromString(s)
  {
    forall name ensures Lookup(name) != Some(DirectLogin) { FoundIsListed(ALL_SCOPES, name); }
  }

  /** A word is looked up exactly by the names of the scopes other than direct login. */
  lemma LookupFindsNames(name: string, s: Scope)
    ensures Lookup(name) == Some(s) <==> s != DirectLogin && name == ScopeName(s)
  {
    FoundIsListed(ALL_SCOPES, name);
    FoundHasName(ALL_SCOPES, name);
    FindFinds(ALL_SCOPES, s);
  }

  lemma {:induction false} FoundHasName(scopes: seq<Scope>, name: string)
    ensures Find(scopes, name).Some? ==> ScopeName(Find(scopes, name).value) == name
  {
    if scopes != [] { FoundHasName(scopes[1..], name); }
  }

  /** The strings that applications ask for. */
  lemma ScopeStrings()
    ensures ScopesFromString("repo:read") == {ReadRepo} && ScopesFromString("repo:write") == {WriteRepo}
    ensures ScopesFromString("repo:admin") == {AdminRepo} && ScopesFromString("repo:create") == {CreateRepo}
    ensures ScopesFromString("user:read") == {ReadUser} && ScopesFromString("user:admin") == {AdminUser}
    ensures ScopesFromString("org:admin") == {OrgAdmin} && ScopesFromString("super:user") == {SuperUser}
  {
    forall s: Scope | s != DirectLogin { NameParses(s); }
    assert ScopeName(ReadRepo) == "repo:read" && ScopeName(WriteRepo) == "repo:write";
    assert ScopeName(AdminRepo) == "repo:admin" && ScopeName(CreateRepo) == "repo:create";
    assert ScopeName(ReadUser) == "user:read" && ScopeName(AdminUser) == "user:admin";
    assert ScopeName(OrgAdmin) == "org:admin" && ScopeName(SuperUser) == "super:user";
  }

  /**
    The subset test, exactly: the full string is valid, and every expected scope is among its scopes or is a
    repository scope below one of them.
   */
  lemma SubsetIff(full: string, expected: string)
    ensures var have := ScopesFromString(full);
            IsSubsetString(full, expected) <==>
              && have != {}
              && forall s <- ScopesFromString(expected) ::
                   || s in have
                   || (s == ReadRepo && (WriteRepo in have || AdminRepo in have))
                   || (s == WriteRepo && AdminRepo in have)
  {
    DirectLoginIsNeverParsed(expected);
    DirectLoginIsNeverParsed(full);
    forall s | s != DirectLogin
      ensures s in Implied(ScopesFromString(full)) <==>
                var have := ScopesFromString(full);
                || s in have
                || (s == ReadRepo && (WriteRepo in have || AdminRepo in have))
                || (s == WriteRepo && AdminRepo in have)
    {
      ImpliedMeans(ScopesFromString(full), s);
    }
  }

  lemma ImpliedMeans(have: set<Scope>, s: Scope)
    requires DirectLogin !in have
    ensures s in Implied(have) <==>
              || s in have
              || (s == ReadRepo && (WriteRepo in have || AdminRepo in have))
              || (s == WriteRepo && AdminRepo in have)
  {
    forall f | f in have ensures s in ImpliedBy(f) ==> s in Implied(have) {}
  }
}
