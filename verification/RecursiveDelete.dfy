/** The toposort library as delete_instance_filtered uses it: a flattened topological order of a dependency graph. */
module Toposort {
  import opened Prelude

  type Graph = map<string, set<string>>

  datatype Error = CircularDependency

  function Nodes(g: Graph): set<string> {
    g.Keys + set m, d | m in g && d in g[m] :: d
  }

  /** Self-dependencies are discarded. */
  function Deps(g: Graph, m: string): set<string> {
    if m in g then g[m] - {m} else {}
  }

  ghost predicate Distinct(order: seq<string>) {
    forall i, j | 0 <= i < j < |order| :: order[i] != order[j]
  }

  /** Every node once, and before everything that depends on it. */
  ghost predicate IsToposort(g: Graph, order: seq<string>) {
    && Distinct(order)
    && (forall m :: m in order <==> m in Nodes(g))
    && (forall i, j | 0 <= i < |order| && 0 <= j < |order| && order[j] in Deps(g, order[i]) :: j < i)
  }

  /** `m` depends on `d`. */
  predicate Edge(g: Graph, m: string, d: string) { d in Deps(g, m) }

  ghost predicate Ranks(g: Graph, rank: map<string, nat>) {
    forall m, d | Edge(g, m, d) :: m in rank && d in rank && rank[d] < rank[m]
  }

  ghost predicate Acyclic(g: Graph) { exists rank :: Ranks(g, rank) }

  lemma LeastRanked(rank: map<string, nat>, s: set<string>) returns (m: string)
    requires s != {} && s <= rank.Keys
    ensures m in s && forall x <- s :: rank[m] <= rank[x]
  {
    m :| m in s;
    if x :| x in s && rank[x] < rank[m] {
      var first := m;
      assert x in s - {first};
      m := LeastRanked(rank, s - {first});
      assert rank[m] <= rank[x] && forall y <- s :: y == first || y in s - {first};
    }
  }

  /** `m` depends on a node of `s`. */
  predicate WaitsFor(g: Graph, m: string, s: set<string>) { exists d <- s :: Edge(g, m, d) }

  /** A set of nodes each of which waits for another one of the set admits no ranking. */
  lemma StuckMeansCyclic(g: Graph, stuck: set<string>)
    requires stuck != {} && stuck <= Nodes(g) && forall m <- stuck :: WaitsFor(g, m, stuck)
    ensures !Acyclic(g)
  {
    if rank :| Ranks(g, rank) {
      forall m | m in stuck ensures m in rank {
        assert WaitsFor(g, m, stuck);
        var d :| d in stuck && Edge(g, m, d);
      }
      var m := LeastRanked(rank, stuck);
      assert false;
    }
  }

  function IndexOf(order: seq<string>, m: string): (k: nat)
    requires m in order
    ensures k < |order| && order[k] == m
  {
    if order[0] == m then 0 else 1 + IndexOf(order[1..], m)
  }

  lemma ToposortMeansAcyclic(g: Graph, order: seq<string>)
    requires IsToposort(g, order)
    ensures Acyclic(g)
  {
    var rank := map m | m in Nodes(g) :: IndexOf(order, m);
    forall m, d | Edge(g, m, d) ensures m in rank && d in rank && rank[d] < rank[m] {
      assert m in Nodes(g) && d in Nodes(g);
      assert order[rank[d]] in Deps(g, order[rank[m]]);
    }
    assert Ranks(g, rank);
  }

  // ---------------------------------------------------------------- alphabetical levels

  /** Strings compare character by character; a prefix comes first. */
  predicate Before(a: string, b: string) {
    b != "" && (a == "" || a[0] < b[0] || (a[0] == b[0] && Before(a[1..], b[1..])))
  }

  /** `a` and `b` agree on their first `k` characters, and there `a` ends or has the smaller one. */
  predicate DifferAt(a: string, b: string, k: nat) {
    k <= |a| && k < |b| && a[..k] == b[..k] && (k == |a| || a[k] < b[k])
  }

  lemma {:induction false} BeforeIff(a: string, b: string)
    ensures Before(a, b) <==> exists k: nat :: DifferAt(a, b, k)
  {
    if a == "" || b == "" || a[0] < b[0] {
      if b != "" { assert DifferAt(a, b, 0); }
    } else {
      BeforeIff(a[1..], b[1..]);
      if a[0] == b[0] && Before(a[1..], b[1..]) {
        var k: nat :| DifferAt(a[1..], b[1..], k);
        assert a[..k + 1] == [a[0]] + a[1..][..k] && b[..k + 1] == [b[0]] + b[1..][..k];
        assert DifferAt(a, b, k + 1);
      }
      if k: nat :| DifferAt(a, b, k) {
        assert k > 0 && a[0] == a[..k][0] && b[0] == b[..k][0];
        assert a[1..][..k - 1] == a[..k][1..] && b[1..][..k - 1] == b[..k][1..];
        assert DifferAt(a[1..], b[1..], k - 1);
      }
    }
  }

  lemma {:induction false} BeforeIsTotal(a: string, b: string)
    ensures a == b || Before(a, b) || Before(b, a)
  {
    if a != "" && b != "" && a[0] == b[0] {
      BeforeIsTotal(a[1..], b[1..]);
      if a[1..] == b[1..] { assert a == [a[0]] + a[1..] && b == [b[0]] + b[1..]; }
    }
  }

  lemma {:induction false} BeforeIsTransitive(a: string, b: string, c: string)
    requires Before(a, b) && Before(b, c)
    ensures Before(a, c)
  {
    if a != "" && a[0] == b[0] && b[0] == c[0] { BeforeIsTransitive(a[1..], b[1..], c[1..]); }
  }

  lemma {:induction false} BeforeIsIrreflexive(a: string)
    ensures !Before(a, a)
  {
    if a != "" { BeforeIsIrreflexive(a[1..]); }
  }

  predicate IsFirst(m: string, s: set<string>) { m in s && forall x <- s :: x == m || Before(m, x) }

  lemma FirstIsBefore(m: string, s: set<string>, x: string)
    requires IsFirst(m, s) && x in s && x != m
    ensures Before(m, x)
  {}

  lemma {:induction false} FirstExists(s: set<string>) returns (m: string)
    requires s != {}
    ensures IsFirst(m, s)
  {
    var x :| x in s;
    if s == {x} {
      m := x;
    } else {
      var rest := s - {x};
      assert s == rest + {x};
      var n := FirstExists(rest);
      BeforeIsTotal(x, n);
      m := if Before(x, n) then x else n;
      forall y | y in s && y != m ensures Before(m, y) {
        if m == x && y != n { BeforeIsTransitive(x, n, y); }
      }
    }
  }

  /** Exactly the nodes of the level, in alphabetical order. */
  ghost predicate Listing(r: seq<string>, level: set<string>) {
    && (forall m :: m in r <==> m in level)
    && forall i, j | 0 <= i < j < |r| :: Before(r[i], r[j])
  }

  lemma ListingIsDistinct(r: seq<string>, level: set<string>)
    requires Listing(r, level)
    ensures Distinct(r)
  {
    forall i, j | 0 <= i < j < |r| ensures r[i] != r[j] { BeforeIsIrreflexive(r[i]); }
  }

  method Listed(level: set<string>) returns (r: seq<string>)
    ensures Listing(r, level)
  {
    r := [];
    var rest := level;
    while rest != {}
      invariant rest <= level && Listing(r, level - rest)
      invariant forall x, y | x in r && y in rest :: Before(x, y)
    {
      ghost var first := FirstExists(rest);
      var m :| m in rest && IsFirst(m, rest);
      assert forall i | 0 <= i < |r| :: r[i] in r;
      assert forall x :: x in r + [m] <==> x in r || x == m;
      forall x, y | x in r + [m] && y in rest - {m} ensures Before(x, y) {
        if x in r { assert y in rest; } else { FirstIsBefore(x, rest, y); }
      }
      r := r + [m];
      rest := rest - {m};
    }
  }

  /** The nodes that wait for none of the remaining ones. */
  function Ready(g: Graph, remaining: set<string>): set<string> {
    set m | m in remaining && !WaitsFor(g, m, remaining)
  }

  /** The nodes that remain after `k` levels. */
  ghost function LeftAfter(g: Graph, k: nat): set<string> {
    if k == 0 then Nodes(g) else LeftAfter(g, k - 1) - Ready(g, LeftAfter(g, k - 1))
  }

  ghost function Concat(levels: seq<seq<string>>): seq<string> {
    if levels == [] then [] else Concat(levels[..|levels| - 1]) + levels[|levels| - 1]
  }

  /** Level after level of the nodes that wait for nothing, each in alphabetical order. */
  ghost predicate LevelByLevel(g: Graph, levels: seq<seq<string>>, order: seq<string>) {
    && order == Concat(levels)
    && forall k | 0 <= k < |levels| :: Listing(levels[k], Ready(g, LeftAfter(g, k)))
  }

  /** toposort_flatten: the order is fixed, level by level; it fails exactly on cyclic graphs. */
  method Flatten(g: Graph) returns (r: Result<seq<string>, Error>, ghost levels: seq<seq<string>>)
    ensures r.Ok? <==> Acyclic(g)
    ensures r.Ok? ==> IsToposort(g, r.value)
    ensures r.Ok? ==> LevelByLevel(g, levels, r.value) && LeftAfter(g, |levels|) == {}
  {
    var remaining := Nodes(g);
    var order: seq<string> := [];
    levels := [];
    while remaining != {}
      invariant remaining <= Nodes(g) && Distinct(order)
      invariant forall m :: m in order <==> m in Nodes(g) - remaining
      invariant forall m <- order :: !WaitsFor(g, m, remaining)
      invariant forall i, j | 0 <= i < |order| && 0 <= j < |order| && order[j] in Deps(g, order[i]) :: j < i
      invariant LevelByLevel(g, levels, order) && remaining == LeftAfter(g, |levels|)
    {
      var ready := Ready(g, remaining);
      if ready == {} {
        assert forall m <- remaining :: m in ready || WaitsFor(g, m, remaining);
        StuckMeansCyclic(g, remaining);
        return Err(CircularDependency), levels;
      }
      var level := Listed(ready);
      ListingIsDistinct(level, ready);
      LevelExtends(g, order, level, remaining, ready);
      OneMoreLevel(g, levels, order, level);
      order := order + level;
      levels := levels + [level];
      remaining := remaining - ready;
    }
    ToposortMeansAcyclic(g, order);
    r := Ok(order);
  }

  lemma OneMoreLevel(g: Graph, levels: seq<seq<string>>, order: seq<string>, level: seq<string>)
    requires LevelByLevel(g, levels, order) && Listing(level, Ready(g, LeftAfter(g, |levels|)))
    ensures LevelByLevel(g, levels + [level], order + level)
  {
    assert (levels + [level])[..|levels|] == levels;
  }

  lemma LevelExtends(g: Graph, order: seq<string>, level: seq<string>, remaining: set<string>, ready: set<string>)
    requires ready <= remaining && Distinct(order) && Distinct(level)
    requires (forall m <- order :: m !in remaining) && (forall m :: m in level <==> m in ready)
    requires forall m <- ready :: !WaitsFor(g, m, remaining)
    requires forall m <- order :: !WaitsFor(g, m, remaining)
    requires forall i, j | 0 <= i < |order| && 0 <= j < |order| && order[j] in Deps(g, order[i]) :: j < i
    ensures Distinct(order + level)
    ensures var all := order + level;
            forall i, j | 0 <= i < |all| && 0 <= j < |all| && all[j] in Deps(g, all[i]) :: j < i
  {
    var all := order + level;
    forall i | 0 <= i < |all| ensures if i < |order| then all[i] in order else all[i] in ready {
      if i >= |order| { assert all[i] == level[i - |order|]; }
    }
  }

  /** `path` walks from dependent to dependency. */
  predicate IsPath(g: Graph, path: seq<string>) {
    |path| >= 2 && forall k | 0 <= k < |path| - 1 :: path[k + 1] in Deps(g, path[k])
  }

  /** `a` depends on `b`, directly or through others. */
  ghost predicate DependsOn(g: Graph, a: string, b: string) {
    exists path :: IsPath(g, path) && path[0] == a && path[|path| - 1] == b
  }

  lemma {:induction false} PathDescends(g: Graph, order: seq<string>, path: seq<string>)
    requires IsToposort(g, order) && IsPath(g, path)
    ensures path[0] in order && path[|path| - 1] in order
    ensures IndexOf(order, path[|path| - 1]) < IndexOf(order, path[0])
    decreases |path|
  {
    assert path[1] in Deps(g, path[0]);
    assert path[0] in Nodes(g) && path[1] in Nodes(g);
    var i, j := IndexOf(order, path[0]), IndexOf(order, path[1]);
    assert order[j] in Deps(g, order[i]);
    if |path| > 2 {
      PathDescends(g, order, path[1..]);
    }
  }
}

/** delete_instance_filtered of data/database.py. */
module RecursiveDelete {
  import opened Prelude
  import T = Toposort

  /** How a dependent row is found: through a subquery on `target`, by equality with the root, or otherwise. */
  datatype Match = In(target: string) | Equals | Other

  /** One (query, foreign key) pair; `id` tells queries apart. */
  datatype Op = Op(id: nat, model: string, via: Match, nullable: bool)

  datatype Statement = Delete(op: Op) | SetNull(op: Op) | DeleteRoot

  datatype Error = UnknownOperator | Circular

  // ---------------------------------------------------------------- the specification

  function Reversed<X>(xs: seq<X>): (r: seq<X>)
    ensures |r| == |xs| && forall i | 0 <= i < |xs| :: r[i] == xs[|xs| - 1 - i]
  {
    if xs == [] then [] else Reversed(xs[1..]) + [xs[0]]
  }

  predicate Kept(o: Op, skip: set<string>) { o.model !in skip || !o.via.In? }

  function Filter(p: Op -> bool, ops: seq<Op>): seq<Op> {
    if ops == [] then [] else (if p(ops[0]) then [ops[0]] else []) + Filter(p, ops[1..])
  }

  function Unskipped(ops: seq<Op>, skip: set<string>): seq<Op> { Filter(o => Kept(o, skip), ops) }

  function Target(o: Op, root: string): string { if o.via.In? then o.via.target else root }

  /** The dependencies recorded while walking the operations, skipped ones included. */
  function Recorded(ops: seq<Op>, root: string): T.Graph {
    map m | m in Models(ops) :: TargetsOf(ops, root, m)
  }

  function Models(ops: seq<Op>): set<string> { set o | o in ops :: o.model }

  function TargetsOf(ops: seq<Op>, root: string, m: string): set<string> {
    set o | o in ops && o.model == m :: Target(o, root)
  }

  function Insert(key: Op -> int, o: Op, sorted: seq<Op>): seq<Op> {
    if sorted == [] || key(o) <= key(sorted[0]) then [o] + sorted
    else [sorted[0]] + Insert(key, o, sorted[1..])
  }

  /** list.sort with a key. */
  function StableSort(key: Op -> int, ops: seq<Op>): seq<Op> {
    if ops == [] then [] else Insert(key, ops[0], StableSort(key, ops[1..]))
  }

  predicate SortedBy(key: Op -> int, ops: seq<Op>) {
    forall i, j | 0 <= i < j < |ops| :: key(ops[i]) <= key(ops[j])
  }

  lemma {:induction false} InsertContents(key: Op -> int, o: Op, sorted: seq<Op>)
    ensures multiset(Insert(key, o, sorted)) == multiset{o} + multiset(sorted)
  {
    if !(sorted == [] || key(o) <= key(sorted[0])) {
      InsertContents(key, o, sorted[1..]);
      assert sorted == [sorted[0]] + sorted[1..];
    }
  }

  lemma {:induction false} InsertSorts(key: Op -> int, o: Op, sorted: seq<Op>)
    requires SortedBy(key, sorted)
    ensures SortedBy(key, Insert(key, o, sorted))
  {
    if !(sorted == [] || key(o) <= key(sorted[0])) {
      InsertSorts(key, o, sorted[1..]);
      InsertContents(key, o, sorted[1..]);
      var rest := Insert(key, o, sorted[1..]);
      forall i | 0 <= i < |rest| ensures key(sorted[0]) <= key(rest[i]) {
        assert rest[i] in multiset(rest);
        assert rest[i] == o || rest[i] in sorted[1..];
      }
    }
  }

  /** Insertion puts an operation before the others of its key, so their order is kept. */
  lemma {:induction false} InsertIsStable(key: Op -> int, o: Op, sorted: seq<Op>, p: Op -> bool, k: int)
    requires SortedBy(key, sorted) && forall x: Op :: p(x) ==> key(x) == k
    ensures Filter(p, Insert(key, o, sorted)) == (if p(o) then [o] else []) + Filter(p, sorted)
  {
    var r := Insert(key, o, sorted);
    if sorted == [] || key(o) <= key(sorted[0]) {
      assert r[1..] == sorted;
    } else {
      InsertIsStable(key, o, sorted[1..], p, k);
      assert r[1..] == Insert(key, o, sorted[1..]);
    }
  }

  lemma {:induction false} StableSortSorts(key: Op -> int, ops: seq<Op>)
    ensures multiset(StableSort(key, ops)) == multiset(ops) && SortedBy(key, StableSort(key, ops))
  {
    if ops != [] {
      StableSortSorts(key, ops[1..]);
      InsertContents(key, ops[0], StableSort(key, ops[1..]));
      InsertSorts(key, ops[0], StableSort(key, ops[1..]));
      assert ops == [ops[0]] + ops[1..];
    }
  }

  lemma {:induction false} StableSortIsStable(key: Op -> int, ops: seq<Op>, p: Op -> bool, k: int)
    requires forall x: Op :: p(x) ==> key(x) == k
    ensures Filter(p, StableSort(key, ops)) == Filter(p, ops)
  {
    if ops != [] {
      StableSortSorts(key, ops[1..]);
      StableSortIsStable(key, ops[1..], p, k);
      InsertIsStable(key, ops[0], StableSort(key, ops[1..]), p, k);
    }
  }

  /** The sort key: subqueries first, then the direct deletes in reversed topological order of their models. */
  function Key(order: seq<string>, o: Op): int {
    if o.via.In? then -1
    else if o.model in Reversed(order) then T.IndexOf(Reversed(order), o.model)
    else |order|
  }

  function ByKey(order: seq<string>): Op -> int { o => Key(order, o) }

  function Statements(ops: seq<Op>, deleteNullable: bool): (r: seq<Statement>)
    ensures |r| == |ops|
  {
    seq(|ops|, i requires 0 <= i < |ops| => if ops[i].nullable && !deleteNullable then SetNull(ops[i]) else Delete(ops[i]))
  }

  // ---------------------------------------------------------------- what is promised, over the operations found

  /** Rows of model `a` refer to rows of model `b`: through a subquery on it, or to the root row itself. */
  predicate RefersTo(found: seq<Op>, root: string, a: string, b: string) {
    a != b && exists o <- found :: o.model == a && ((o.via.In? && o.via.target == b) || (o.via.Equals? && b == root))
  }

  /** Each model of the chain refers to the next. */
  predicate Chain(found: seq<Op>, root: string, models: seq<string>) {
    |models| >= 2 && forall k | 0 <= k < |models| - 1 :: RefersTo(found, root, models[k], models[k + 1])
  }

  /** `a` refers to `b`, directly or through others. */
  ghost predicate Reaches(found: seq<Op>, root: string, a: string, b: string) {
    exists models :: Chain(found, root, models) && models[0] == a && models[|models| - 1] == b
  }

  ghost predicate RanksModels(found: seq<Op>, root: string, rank: map<string, nat>) {
    forall a, b | RefersTo(found, root, a, b) :: a in rank && b in rank && rank[b] < rank[a]
  }

  /** The statement at `i` is a direct delete, or a direct clearing, on this model. */
  predicate DirectOn(run: seq<Statement>, i: int, model: string) {
    0 <= i < |run| && !run[i].DeleteRoot? && run[i].op.model == model && !run[i].op.via.In?
  }

  /**
    The root row goes last; every operation runs as often as it was found, unless it goes through a subquery of a model
    to be skipped; nullable references are cleared or deleted as asked; subqueries run first; and
    direct operations on a model run before those on every model it refers to, through any chain.
   */
  ghost predicate Promised(found: seq<Op>, root: string, skip: set<string>, deleteNullable: bool, run: seq<Statement>) {
    && run != [] && run[|run| - 1] == DeleteRoot
    && (forall i | 0 <= i < |run| - 1 ::
          !run[i].DeleteRoot? && run[i] == if run[i].op.nullable && !deleteNullable then SetNull(run[i].op) else Delete(run[i].op))
    && (forall o :: OpsOf(run)[o] == if o.model in skip && o.via.In? then 0 else multiset(found)[o])
    && (forall i, j | 0 <= i < j < |run| - 1 && run[j].op.via.In? :: run[i].op.via.In?)
    && (forall a, b, i, j | DirectOn(run, i, a) && DirectOn(run, j, b) && Reaches(found, root, a, b) :: i < j)
  }

  /** The operations executed before the root row goes. */
  function OpsOf(run: seq<Statement>): multiset<Op> {
    if run == [] then multiset{}
    else OpsOf(run[..|run| - 1])
         + if run[|run| - 1].DeleteRoot? then multiset{} else multiset{run[|run| - 1].op}
  }

  // ---------------------------------------------------------------- the code

  method CollectOperations(found: seq<Op>, root: string, skip: set<string>)
    returns (filtered: seq<Op>, dependencies: T.Graph, known: bool)
    ensures known <==> forall o <- found :: !o.via.Other?
    ensures known ==> filtered == Unskipped(Reversed(found), skip) && dependencies == Recorded(Reversed(found), root)
    ensures known ==> forall a, b :: T.Edge(dependencies, a, b) <==> RefersTo(found, root, a, b)
  {
    var ops := Reversed(found);
    filtered, dependencies, known := [], map[], true;
    for i := 0 to |ops|
      invariant filtered == Unskipped(ops[..i], skip)
      invariant dependencies == Recorded(ops[..i], root)
      invariant forall o <- ops[..i] :: !o.via.Other?
    {
      var o := ops[i];
      assert ops[..i + 1] == ops[..i] + [o];
      FilterSnoc(x => Kept(x, skip), ops[..i], o);
      if Kept(o, skip) {
        filtered := filtered + [o];
      }
      if o.via.Other? {
        assert found[|found| - 1 - i] == o;
        known := false;
        return;
      }
      RecordedSnoc(ops[..i], o, root);
      var before := if o.model in dependencies then dependencies[o.model] else {};
      dependencies := dependencies[o.model := before + {Target(o, root)}];
    }
    assert ops[..|ops|] == ops;
    forall o | o in found ensures o in ops {
      var i :| 0 <= i < |found| && found[i] == o;
      assert ops[|found| - 1 - i] == o;
    }
    forall a, b ensures T.Edge(dependencies, a, b) <==> RefersTo(found, root, a, b) { RecordedEdges(found, root, a, b); }
  }

  lemma {:induction false} FilterSnoc(p: Op -> bool, ops: seq<Op>, o: Op)
    ensures Filter(p, ops + [o]) == Filter(p, ops) + if p(o) then [o] else []
  {
    if ops == [] {
      assert ops + [o] == [o];
    } else {
      assert (ops + [o])[1..] == ops[1..] + [o];
      FilterSnoc(p, ops[1..], o);
      var head, tail: seq<Op> := if p(ops[0]) then [ops[0]] else [], if p(o) then [o] else [];
      assert head + (Filter(p, ops[1..]) + tail) == (head + Filter(p, ops[1..])) + tail;
    }
  }

  lemma RecordedSnoc(ops: seq<Op>, o: Op, root: string)
    ensures var g := Recorded(ops, root);
            Recorded(ops + [o], root) == g[o.model := (if o.model in g then g[o.model] else {}) + {Target(o, root)}]
  {
    var g, g' := Recorded(ops, root), Recorded(ops + [o], root);
    assert forall x :: x in ops + [o] <==> x in ops || x == o;
    assert Models(ops + [o]) == Models(ops) + {o.model};
    assert TargetsOf(ops + [o], root, o.model) == TargetsOf(ops, root, o.model) + {Target(o, root)};
    assert o.model !in Models(ops) ==> TargetsOf(ops, root, o.model) == {};
    forall m | m != o.model ensures TargetsOf(ops + [o], root, m) == TargetsOf(ops, root, m) {}
  }

  /** The loop that runs the sorted operations. */
  method Execute(sorted: seq<Op>, deleteNullable: bool) returns (executed: seq<Statement>)
    ensures executed == Statements(sorted, deleteNullable)
  {
    executed := [];
    for i := 0 to |sorted|
      invariant executed == Statements(sorted[..i], deleteNullable)
    {
      var o := sorted[i];
      if o.nullable && !deleteNullable {
        executed := executed + [SetNull(o)];
      } else {
        executed := executed + [Delete(o)];
      }
    }
    assert sorted[..|sorted|] == sorted;
  }

  /** The statements delete_instance_filtered executes, or the error it raises before executing any. */
  method DeleteInstanceFiltered(found: seq<Op>, root: string, deleteNullable: bool, skip: set<string>)
    returns (r: Result<seq<Statement>, Error>, ghost order: seq<string>, ghost levels: seq<seq<string>>)
    ensures r == Err(UnknownOperator) <==> exists o <- found :: o.via.Other?
    ensures r == Err(Circular) <==>
              (forall o <- found :: !o.via.Other?) && !exists rank :: RanksModels(found, root, rank)
    ensures r.Ok? ==> Promised(found, root, skip, deleteNullable, r.value)
    ensures r.Ok? ==>
              && T.IsToposort(Recorded(Reversed(found), root), order)
              && T.LevelByLevel(Recorded(Reversed(found), root), levels, order)
              && r.value == Statements(StableSort(ByKey(order), Unskipped(Reversed(found), skip)), deleteNullable)
                            + [DeleteRoot]
  {
    order, levels := [], [];
    var filtered, dependencies, known := CollectOperations(found, root, skip);
    if !known {
      return Err(UnknownOperator), order, levels;
    }
    RecordedAcyclicIff(found, root);
    var flattened;
    flattened, levels := T.Flatten(dependencies);
    if flattened.Err? {
      return Err(Circular), order, levels;
    }
    order := flattened.value;
    var models := flattened.value;
    var sorted := StableSort(ByKey(models), filtered);
    var executed := Execute(sorted, deleteNullable);
    KeepsPromises(found, root, skip, deleteNullable, order);
    r := Ok(executed + [DeleteRoot]);
  }

  // ---------------------------------------------------------------- what the order guarantees

  predicate IsSubquery(o: Op) { o.via.In? }

  lemma {:induction false} FilterContents(p: Op -> bool, ops: seq<Op>, o: Op)
    ensures o in Filter(p, ops) <==> o in ops && p(o)
  {
    if ops != [] { FilterContents(p, ops[1..], o); }
  }

  /** In a sequence whose subqueries all come first, they are a prefix in their own order. */
  lemma {:induction false} SubqueriesArePrefix(ops: seq<Op>)
    requires forall i, j | 0 <= i < j < |ops| && IsSubquery(ops[j]) :: IsSubquery(ops[i])
    ensures var subqueries := Filter(IsSubquery, ops);
            |subqueries| <= |ops| && ops[..|subqueries|] == subqueries
            && forall i | |subqueries| <= i < |ops| :: !IsSubquery(ops[i])
  {
    if ops != [] {
      SubqueriesArePrefix(ops[1..]);
      var rest := Filter(IsSubquery, ops[1..]);
      if IsSubquery(ops[0]) {
        assert ops[..1 + |rest|] == [ops[0]] + ops[1..][..|rest|];
        forall i | 1 + |rest| <= i < |ops| ensures !IsSubquery(ops[i]) { assert ops[i] == ops[1..][i - 1]; }
      } else {
        forall i | 0 <= i < |ops| ensures !IsSubquery(ops[i]) {}
        NoneFiltered(ops);
      }
    }
  }

  lemma {:induction false} NoneFiltered(ops: seq<Op>)
    requires forall i | 0 <= i < |ops| :: !IsSubquery(ops[i])
    ensures Filter(IsSubquery, ops) == []
  {
    if ops != [] { NoneFiltered(ops[1..]); }
  }

  /** Of two models, the one that depends on the other has the smaller key. */
  lemma DependentsComeFirst(g: T.Graph, order: seq<string>, a: string, b: string)
    requires T.IsToposort(g, order) && T.DependsOn(g, a, b)
    ensures a in Reversed(order) && b in Reversed(order)
    ensures T.IndexOf(Reversed(order), a) < T.IndexOf(Reversed(order), b)
  {
    var path :| T.IsPath(g, path) && path[0] == a && path[|path| - 1] == b;
    T.PathDescends(g, order, path);
    ReversedIndex(order, a);
    ReversedIndex(order, b);
  }

  lemma ReversedIndex(order: seq<string>, m: string)
    requires T.Distinct(order) && m in order
    ensures m in Reversed(order) && T.IndexOf(Reversed(order), m) == |order| - 1 - T.IndexOf(order, m)
  {}

  /** The subqueries of the sorted operations are those of the given ones, first and in their order. */
  lemma SubqueriesFirst(order: seq<string>, ops: seq<Op>)
    ensures var sorted := StableSort(ByKey(order), ops);
            var subqueries := Filter(IsSubquery, ops);
            && |subqueries| <= |sorted| && sorted[..|subqueries|] == subqueries
            && forall i | |subqueries| <= i < |sorted| :: !IsSubquery(sorted[i])
  {
    var key := ByKey(order);
    var sorted := StableSort(key, ops);
    StableSortSorts(key, ops);
    StableSortIsStable(key, ops, IsSubquery, -1);
    forall i, j | 0 <= i < j < |sorted| && IsSubquery(sorted[j]) ensures IsSubquery(sorted[i]) {
      assert key(sorted[i]) <= key(sorted[j]) == -1;
    }
    SubqueriesArePrefix(sorted);
  }

  lemma DirectDeletesRespectDependencies(g: T.Graph, order: seq<string>, ops: seq<Op>, i: nat, j: nat)
    requires T.IsToposort(g, order)
    requires var sorted := StableSort(ByKey(order), ops);
             && i < |sorted| && j < |sorted| && !IsSubquery(sorted[i]) && !IsSubquery(sorted[j])
             && T.DependsOn(g, sorted[i].model, sorted[j].model)
    ensures i < j
  {
    var key := ByKey(order);
    var sorted := StableSort(key, ops);
    StableSortSorts(key, ops);
    DependentsComeFirst(g, order, sorted[i].model, sorted[j].model);
    assert key(sorted[i]) < key(sorted[j]);
    SmallerKeyComesFirst(key, sorted, i, j);
  }

  lemma SmallerKeyComesFirst(key: Op -> int, sorted: seq<Op>, i: nat, j: nat)
    requires SortedBy(key, sorted) && i < |sorted| && j < |sorted| && key(sorted[i]) < key(sorted[j])
    ensures i < j
  {}

  lemma SortedContents(order: seq<string>, found: seq<Op>, skip: set<string>, o: Op)
    ensures o in StableSort(ByKey(order), Unskipped(Reversed(found), skip)) <==> o in found && Kept(o, skip)
  {
    var ops := Unskipped(Reversed(found), skip);
    var sorted := StableSort(ByKey(order), ops);
    StableSortSorts(ByKey(order), ops);
    assert o in sorted <==> o in multiset(sorted);
    assert o in ops <==> o in multiset(ops);
    FilterContents(x => Kept(x, skip), Reversed(found), o);
    ReversedContents(found, o);
  }

  /**
    The deletion order, for every list of operations whose recorded dependencies are acyclic:
    exactly the unskipped operations run; those with subqueries run first, in the order they were in; a
    direct delete on a model runs before the direct deletes on every model it transitively depends on;
    and the root row goes last.
   */
  lemma DeletionOrder(found: seq<Op>, root: string, skip: set<string>, deleteNullable: bool, order: seq<string>)
    requires T.IsToposort(Recorded(Reversed(found), root), order)
    ensures var ops := Unskipped(Reversed(found), skip);
            var sorted := StableSort(ByKey(order), ops);
            var run := Statements(sorted, deleteNullable) + [DeleteRoot];
            var subqueries := Filter(IsSubquery, ops);
            && multiset(sorted) == multiset(ops)
            && (forall o :: o in sorted <==> o in found && (o.model !in skip || !o.via.In?))
            && |run| == |sorted| + 1 && run[|sorted|] == DeleteRoot
            && (forall i | 0 <= i < |sorted| ::
                  run[i] == if sorted[i].nullable && !deleteNullable then SetNull(sorted[i]) else Delete(sorted[i]))
            && |subqueries| <= |sorted| && sorted[..|subqueries|] == subqueries
            && (forall i | |subqueries| <= i < |sorted| :: !IsSubquery(sorted[i]))
            && (forall i, j | |subqueries| <= i < |sorted| && |subqueries| <= j < |sorted|
                           && T.DependsOn(Recorded(Reversed(found), root), sorted[i].model, sorted[j].model) :: i < j)
  {
    var ops := Unskipped(Reversed(found), skip);
    var sorted := StableSort(ByKey(order), ops);
    StableSortSorts(ByKey(order), ops);
    forall o ensures o in sorted <==> o in found && Kept(o, skip) { SortedContents(order, found, skip, o); }
    SubqueriesFirst(order, ops);
    var n := |Filter(IsSubquery, ops)|;
    forall i, j | n <= i < |sorted| && n <= j < |sorted|
               && T.DependsOn(Recorded(Reversed(found), root), sorted[i].model, sorted[j].model)
      ensures i < j
    {
      DirectDeletesRespectDependencies(Recorded(Reversed(found), root), order, ops, i, j);
    }
  }

  // ---------------------------------------------------------------- the promises are kept

  /** Exactly the references between models are recorded. */
  lemma RecordedEdges(found: seq<Op>, root: string, a: string, b: string)
    requires forall o <- found :: !o.via.Other?
    ensures T.Edge(Recorded(Reversed(found), root), a, b) <==> RefersTo(found, root, a, b)
  {
    var ops := Reversed(found);
    forall o ensures o in ops <==> o in found { ReversedContents(found, o); }
    if RefersTo(found, root, a, b) {
      var o :| o in found && o.model == a && ((o.via.In? && o.via.target == b) || (o.via.Equals? && b == root));
      assert o in ops && Target(o, root) == b;
      assert b in TargetsOf(ops, root, a);
    }
    if T.Edge(Recorded(ops, root), a, b) {
      var o :| o in ops && o.model == a && Target(o, root) == b;
      assert o in found;
    }
  }

  lemma RecordedAcyclicIff(found: seq<Op>, root: string)
    requires forall o <- found :: !o.via.Other?
    ensures T.Acyclic(Recorded(Reversed(found), root)) <==> exists rank :: RanksModels(found, root, rank)
  {
    var g := Recorded(Reversed(found), root);
    forall a, b ensures T.Edge(g, a, b) <==> RefersTo(found, root, a, b) { RecordedEdges(found, root, a, b); }
    forall rank ensures T.Ranks(g, rank) <==> RanksModels(found, root, rank) {}
  }

  lemma ChainIsPath(found: seq<Op>, root: string, models: seq<string>)
    requires (forall o <- found :: !o.via.Other?) && Chain(found, root, models)
    ensures T.DependsOn(Recorded(Reversed(found), root), models[0], models[|models| - 1])
  {
    var g := Recorded(Reversed(found), root);
    forall k | 0 <= k < |models| - 1 ensures models[k + 1] in T.Deps(g, models[k]) {
      RecordedEdges(found, root, models[k], models[k + 1]);
      assert T.Edge(g, models[k], models[k + 1]);
    }
    assert T.IsPath(g, models);
  }

  lemma {:induction false} FilterCounts(p: Op -> bool, ops: seq<Op>, o: Op)
    ensures multiset(Filter(p, ops))[o] == if p(o) then multiset(ops)[o] else 0
  {
    if ops != [] {
      assert ops == [ops[0]] + ops[1..];
      FilterCounts(p, ops[1..], o);
    }
  }

  lemma {:induction false} ReversedCounts(xs: seq<Op>)
    ensures multiset(Reversed(xs)) == multiset(xs)
  {
    if xs != [] {
      assert xs == [xs[0]] + xs[1..];
      ReversedCounts(xs[1..]);
    }
  }

  lemma {:induction false} StatementOps(sorted: seq<Op>, deleteNullable: bool)
    ensures OpsOf(Statements(sorted, deleteNullable)) == multiset(sorted)
  {
    if sorted != [] {
      var front := sorted[..|sorted| - 1];
      StatementOps(front, deleteNullable);
      var run := Statements(sorted, deleteNullable);
      assert run[..|run| - 1] == Statements(front, deleteNullable);
      assert sorted == front + [sorted[|sorted| - 1]];
    }
  }

  lemma RunCounts(found: seq<Op>, skip: set<string>, deleteNullable: bool, order: seq<string>, o: Op)
    ensures var run := Statements(StableSort(ByKey(order), Unskipped(Reversed(found), skip)), deleteNullable) + [DeleteRoot];
            OpsOf(run)[o] == if o.model in skip && o.via.In? then 0 else multiset(found)[o]
  {
    var ops := Unskipped(Reversed(found), skip);
    var sorted := StableSort(ByKey(order), ops);
    var run := Statements(sorted, deleteNullable) + [DeleteRoot];
    assert run[..|run| - 1] == Statements(sorted, deleteNullable);
    StatementOps(sorted, deleteNullable);
    StableSortSorts(ByKey(order), ops);
    FilterCounts(x => Kept(x, skip), Reversed(found), o);
    ReversedCounts(found);
  }

  lemma ChainsAreRespected(found: seq<Op>, root: string, skip: set<string>, deleteNullable: bool, order: seq<string>,
                           a: string, b: string, i: int, j: int)
    requires (forall o <- found :: !o.via.Other?) && T.IsToposort(Recorded(Reversed(found), root), order)
    requires var sorted := StableSort(ByKey(order), Unskipped(Reversed(found), skip));
             var run := Statements(sorted, deleteNullable) + [DeleteRoot];
             DirectOn(run, i, a) && DirectOn(run, j, b) && Reaches(found, root, a, b)
    ensures i < j
  {
    var ops := Unskipped(Reversed(found), skip);
    var models :| Chain(found, root, models) && models[0] == a && models[|models| - 1] == b;
    ChainIsPath(found, root, models);
    DirectDeletesRespectDependencies(Recorded(Reversed(found), root), order, ops, i, j);
  }

  lemma SubqueriesRunFirst(order: seq<string>, ops: seq<Op>, i: int, j: int)
    requires var sorted := StableSort(ByKey(order), ops); 0 <= i < j < |sorted| && sorted[j].via.In?
    ensures StableSort(ByKey(order), ops)[i].via.In?
  {
    var sorted := StableSort(ByKey(order), ops);
    StableSortSorts(ByKey(order), ops);
    assert Key(order, sorted[i]) <= Key(order, sorted[j]);
  }

  lemma KeepsPromises(found: seq<Op>, root: string, skip: set<string>, deleteNullable: bool, order: seq<string>)
    requires (forall o <- found :: !o.via.Other?) && T.IsToposort(Recorded(Reversed(found), root), order)
    ensures var sorted := StableSort(ByKey(order), Unskipped(Reversed(found), skip));
            Promised(found, root, skip, deleteNullable, Statements(sorted, deleteNullable) + [DeleteRoot])
  {
    var ops := Unskipped(Reversed(found), skip);
    var sorted := StableSort(ByKey(order), ops);
    var run := Statements(sorted, deleteNullable) + [DeleteRoot];
    forall o ensures OpsOf(run)[o] == if o.model in skip && o.via.In? then 0 else multiset(found)[o] {
      RunCounts(found, skip, deleteNullable, order, o);
    }
    forall a, b, i, j | DirectOn(run, i, a) && DirectOn(run, j, b) && Reaches(found, root, a, b) ensures i < j {
      ChainsAreRespected(found, root, skip, deleteNullable, order, a, b, i, j);
    }
    forall i, j | 0 <= i < j < |run| - 1 && run[j].op.via.In? ensures run[i].op.via.In? {
      SubqueriesRunFirst(order, ops, i, j);
    }
  }

  lemma ReversedContents<X>(xs: seq<X>, x: X)
    ensures x in Reversed(xs) <==> x in xs
  {}
}
