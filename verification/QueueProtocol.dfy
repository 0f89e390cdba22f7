/**
  The work queue as a lease protocol: any number of workers, each with a possibly stale
  snapshot of the row it selected, interleaved with extensions, releases, deletions and
  the passing of time.  Selecting and claiming are separate steps; every transaction and
  every single statement is one step.
 */
module QueueProtocol {
  import opened Prelude
  import opened QueueRows

  /** What a worker remembers between its select and its claim: the row it saw and its own `now`. */
  datatype Snapshot = Snapshot(item: nat, row: Row, now: int)

  /** A successful claim.  Leases are named by the state id the claim installed. */
  datatype Lease = Lease(worker: nat, item: nat, deadline: int)

  datatype State = State(
    clock: int,
    table: Table,
    nextId: nat,
    minted: set<nat>,
    snaps: map<nat, Snapshot>,
    leases: map<nat, Lease>)

  /**
    - `Delete` is complete(), cancel(), delete_namespaced_items() and delete_expired().
    - `Extend` and `Release` (incomplete()) are called by a holder under its own live lease.
    - `LateExtend` and `LateRelease` are the same calls by anybody, in particular by a worker whose
      lease has run out: both need no more than the id.
   */
  datatype Action =
    | Tick(elapsed: nat)
    | Put(item: Item)
    | Select(worker: nat, id: nat, now: int)
    | TakeClaim(worker: nat, processingTime: int, sid: nat)
    | Extend(token: nat, duration: int, minimum: int, data: Option<string>, sid: nat)
    | LateExtend(id: nat, duration: int, minimum: int, data: Option<string>, sid: nat)
    | Release(token: nat, retryAfter: int, restoreRetry: bool, sid: nat)
    | LateRelease(id: nat, retryAfter: int, restoreRetry: bool, sid: nat)
    | Delete(ids: set<nat>)

  predicate Live(s: State, token: nat) {
    token in s.leases && s.leases[token].deadline > s.clock
  }

  predicate Enabled(s: State, a: Action) {
    match a
    case Tick(_) => true
    case Put(item) => item.stateId !in s.minted
    case Select(_, id, now) => now <= s.clock && id in s.table && Available(s.table[id], now)
    case TakeClaim(w, _, sid) => w in s.snaps && sid !in s.minted
    case Extend(token, _, _, _, sid) => Live(s, token) && sid !in s.minted
    case LateExtend(_, _, _, _, sid) => sid !in s.minted
    case Release(token, _, _, sid) => Live(s, token) && sid !in s.minted
    case LateRelease(_, _, _, sid) => sid !in s.minted
    case Delete(_) => true
  }

  /** The table after an extension of row `id`, which may not exist. */
  function Extended(s: State, id: nat, duration: int, minimum: int, data: Option<string>, sid: nat): Table {
    if id in s.table
    then s.table[id := AfterExtension(s.table[id], ExtendRow(s.table[id], s.clock + duration, minimum, data, sid))]
    else s.table
  }

  /** The table after a release of row `id`, which may not exist. */
  function Released(s: State, id: nat, retryAfter: int, restoreRetry: bool, sid: nat): Table {
    if id in s.table
    then s.table[id := ReleasedRow(s.table[id], s.clock + retryAfter, restoreRetry, sid)]
    else s.table
  }

  /** A holder's deadline follows the row it extended. */
  function Renewed(s: State, token: nat, table: Table): Lease
    requires token in s.leases
  {
    var l := s.leases[token];
    if l.item in table && table[l.item].processingExpires.Some?
    then l.(deadline := table[l.item].processingExpires.value)
    else l
  }

  function Next(s: State, a: Action): State
    requires Enabled(s, a)
  {
    match a
    case Tick(elapsed) => s.(clock := s.clock + elapsed)
    case Put(item) =>
      s.(table := s.table[s.nextId := NewRow(item, s.clock)], nextId := s.nextId + 1,
         minted := s.minted + {item.stateId})
    case Select(w, id, now) => s.(snaps := s.snaps[w := Snapshot(id, s.table[id], now)])
    case TakeClaim(w, processingTime, sid) =>
      var snap := s.snaps[w];
      var (table, claimed) := Claim(s.table, snap.item, snap.row.stateId, snap.now, processingTime, sid);
      s.(table := table, snaps := s.snaps - {w}, minted := s.minted + {sid},
         leases := if claimed then s.leases[sid := Lease(w, snap.item, snap.now + processingTime)] else s.leases)
    case Extend(token, duration, minimum, data, sid) =>
      var table := Extended(s, s.leases[token].item, duration, minimum, data, sid);
      s.(table := table, minted := s.minted + {sid}, leases := s.leases[token := Renewed(s, token, table)])
    case LateExtend(id, duration, minimum, data, sid) =>
      s.(table := Extended(s, id, duration, minimum, data, sid), minted := s.minted + {sid})
    case Release(token, retryAfter, restoreRetry, sid) =>
      s.(table := Released(s, s.leases[token].item, retryAfter, restoreRetry, sid),
         minted := s.minted + {sid}, leases := s.leases - {token})
    case LateRelease(id, retryAfter, restoreRetry, sid) =>
      s.(table := Released(s, id, retryAfter, restoreRetry, sid), minted := s.minted + {sid})
    case Delete(ids) => s.(table := s.table - ids)
  }

  function Init(clock: int): State {
    State(clock, map[], 0, {}, map[], map[])
  }

  function Front<T>(run: seq<T>): seq<T> requires run != [] { run[..|run| - 1] }
  function Last<T>(run: seq<T>): T requires run != [] { run[|run| - 1] }

  predicate Legal(s: State, run: seq<Action>)
    decreases |run|, 0
  {
    run == [] || (Legal(s, Front(run)) && Enabled(Exec(s, Front(run)), Last(run)))
  }

  function Exec(s: State, run: seq<Action>): State
    requires Legal(s, run)
    decreases |run|, 1
  {
    if run == [] then s else Next(Exec(s, Front(run)), Last(run))
  }

  // ---------------------------------------------------------------- what every step keeps

  ghost predicate RowsMinted(s: State) {
    forall i <- s.table.Keys :: i < s.nextId && s.table[i].stateId in s.minted
  }

  /** A snapshot showed an available row, and the row is still that row while its state id is. */
  ghost predicate SnapsFaithful(s: State) {
    forall w <- s.snaps.Keys ::
      var snap := s.snaps[w];
      && snap.now <= s.clock
      && snap.item < s.nextId
      && Available(snap.row, snap.now)
      && snap.row.stateId in s.minted
      && (ClaimHits(s.table, snap.item, snap.row.stateId) ==> s.table[snap.item] == snap.row)
  }

  /** Leases are on items that have been claimed. */
  ghost predicate LeasesKnown(s: State) {
    forall t <- s.leases.Keys ::
      && t in s.minted && s.leases[t].item < s.nextId
      && (s.leases[t].item in s.table ==> s.table[s.leases[t].item].processingExpires.Some?)
  }

  ghost predicate Faithful(s: State) { RowsMinted(s) && SnapsFaithful(s) && LeasesKnown(s) }

  /** A write to one row that installs a fresh state id, or leaves the row as it was. */
  ghost predicate RowWrite(s: State, s': State, id: nat) {
    && s'.clock == s.clock && s'.nextId == s.nextId && s.minted <= s'.minted
    && s'.snaps.Keys <= s.snaps.Keys && (forall w <- s'.snaps.Keys :: s'.snaps[w] == s.snaps[w])
    && id in s.table && s'.table.Keys == s.table.Keys
    && (forall i <- s.table.Keys :: i != id ==> s'.table[i] == s.table[i])
    && (s'.table[id] == s.table[id] || s'.table[id].stateId in s'.minted - s.minted)
  }

  /** Such a write invalidates every snapshot of the row. */
  lemma RowWriteKeepsSnaps(s: State, s': State, id: nat)
    requires RowsMinted(s) && SnapsFaithful(s) && RowWrite(s, s', id)
    ensures RowsMinted(s') && SnapsFaithful(s')
  {}

  lemma RowWriteKeepsFaithful(s: State, s': State, id: nat)
    requires Faithful(s) && RowWrite(s, s', id)
    requires s.table[id].processingExpires.Some? ==> s'.table[id].processingExpires.Some?
    requires forall t <- s'.leases.Keys ::
               || (t in s.leases && s'.leases[t].item == s.leases[t].item)
               || (t in s'.minted && s'.leases[t].item == id && s'.table[id].processingExpires.Some?)
    ensures Faithful(s')
  {
    RowWriteKeepsSnaps(s, s', id);
  }

  /** What an extension by anybody does to its row; no other row and no lease moves. */
  lemma ExtensionWrites(s: State, id: nat, duration: int, minimum: int, data: Option<string>, sid: nat)
    requires RowsMinted(s) && id in s.table && sid !in s.minted
    ensures var s' := Next(s, LateExtend(id, duration, minimum, data, sid));
            var r, r' := s.table[id], s'.table[id];
            && RowWrite(s, s', id) && s'.leases == s.leases
            && r'.available == r.available && r'.availableAfter == r.availableAfter
            && r'.retriesRemaining == r.retriesRemaining && r'.queueName == r.queueName
            && r'.processingExpires ==
                 if r.processingExpires.Some? && s.clock + duration - r.processingExpires.value > minimum
                 then Some(s.clock + duration) else r.processingExpires
  {}

  lemma ExtensionKeepsFaithful(s: State, a: Action)
    requires Faithful(s) && (a.Extend? || a.LateExtend?) && Enabled(s, a)
    ensures Faithful(Next(s, a))
  {
    var s', id := Next(s, a), if a.Extend? then s.leases[a.token].item else a.id;
    if id in s.table {
      ExtensionWrites(s, id, a.duration, a.minimum, a.data, a.sid);
      RowWriteKeepsFaithful(s, s', id);
    }
  }

  lemma ReleaseKeepsFaithful(s: State, a: Action)
    requires Faithful(s) && (a.Release? || a.LateRelease?) && Enabled(s, a)
    ensures Faithful(Next(s, a))
  {
    var s', id := Next(s, a), if a.Release? then s.leases[a.token].item else a.id;
    if id in s.table { RowWriteKeepsFaithful(s, s', id); }
  }

  lemma ClaimKeepsFaithful(s: State, a: Action)
    requires Faithful(s) && a.TakeClaim? && Enabled(s, a)
    ensures Faithful(Next(s, a))
  {
    var snap, s' := s.snaps[a.worker], Next(s, a);
    if ClaimHits(s.table, snap.item, snap.row.stateId) { RowWriteKeepsFaithful(s, s', snap.item); }
  }

  lemma StepKeepsFaithful(s: State, a: Action)
    requires Faithful(s) && Enabled(s, a)
    ensures Faithful(Next(s, a))
  {
    if a.TakeClaim? { ClaimKeepsFaithful(s, a); }
    else if a.Extend? || a.LateExtend? { ExtensionKeepsFaithful(s, a); }
    else if a.Release? || a.LateRelease? { ReleaseKeepsFaithful(s, a); }
  }

  /** Fresh state ids alone keep every snapshot faithful, in every run and whoever calls what. */
  lemma {:induction false} RunKeepsFaithful(s: State, run: seq<Action>)
    requires Faithful(s) && Legal(s, run)
    ensures Faithful(Exec(s, run))
    decreases |run|
  {
    if run != [] {
      RunKeepsFaithful(s, Front(run));
      StepKeepsFaithful(Exec(s, Front(run)), Last(run));
    }
  }

  // ---------------------------------------------------------------- lease exclusion

  predicate LeasedTo(s: State, token: nat, id: nat) { Live(s, token) && s.leases[token].item == id }

  /** No two live leases on the item, whether of two workers or of one worker twice. */
  ghost predicate Exclusive(s: State, id: nat) {
    forall t, u | LeasedTo(s, t, id) && LeasedTo(s, u, id) :: t == u
  }

  /**
    The discipline that exclusion needs, item by item: only a holder releases the item, and
    nobody else cuts its lease short, which takes a negative minimum extension.
   */
  predicate Careful(a: Action, id: nat) {
    && !(a.LateRelease? && a.id == id)
    && !(a.LateExtend? && a.id == id && a.minimum < 0)
  }

  predicate CarefulRun(run: seq<Action>, id: nat) {
    forall i | 0 <= i < |run| :: Careful(run[i], id)
  }

  /** No claim can reach the row before `deadline`: it has no retries, or it stays claimed or not due until then. */
  predicate Safe(r: Row, deadline: int) {
    || r.retriesRemaining <= 0
    || (!r.available && r.processingExpires.Some?
        && (r.processingExpires.value >= deadline || r.availableAfter >= deadline))
  }

  /** The item is under a live lease and somebody else could claim it meanwhile. */
  predicate Exposed(s: State, token: nat, id: nat) {
    LeasedTo(s, token, id) && id in s.table && !Safe(s.table[id], s.leases[token].deadline)
  }

  ghost predicate Sheltered(s: State, id: nat) {
    Faithful(s) && Exclusive(s, id) && forall t :: !Exposed(s, t, id)
  }

  /** A claim never hits an item under a live lease. */
  lemma ClaimFindsNoLease(s: State, w: nat, t: nat)
    requires w in s.snaps && Sheltered(s, s.snaps[w].item)
    requires ClaimHits(s.table, s.snaps[w].item, s.snaps[w].row.stateId)
    ensures !LeasedTo(s, t, s.snaps[w].item)
  {
    assert !Exposed(s, t, s.snaps[w].item);
  }

  /** A step that leaves the row safe for the leases it keeps, and starts no lease, keeps the item sheltered. */
  lemma NoNewLease(s: State, s': State, id: nat)
    requires Sheltered(s, id) && Faithful(s')
    requires forall t | LeasedTo(s', t, id) :: LeasedTo(s, t, id)
    requires forall t | LeasedTo(s', t, id) && id in s'.table :: Safe(s'.table[id], s'.leases[t].deadline)
    ensures Sheltered(s', id)
  {}

  lemma ClaimKeepsSheltered(s: State, a: Action, id: nat)
    requires Sheltered(s, id) && a.TakeClaim? && Enabled(s, a)
    ensures Sheltered(Next(s, a), id)
  {
    var snap, s' := s.snaps[a.worker], Next(s, a);
    StepKeepsFaithful(s, a);
    if snap.item == id && ClaimHits(s.table, id, snap.row.stateId) {
      forall t ensures !LeasedTo(s, t, id) { ClaimFindsNoLease(s, a.worker, t); }
      forall t | LeasedTo(s', t, id) ensures t == a.sid { assert !LeasedTo(s, t, id); }
    } else {
      forall t | LeasedTo(s', t, id) ensures LeasedTo(s, t, id) && !Exposed(s, t, id) {}
      NoNewLease(s, s', id);
    }
  }

  lemma ExtensionKeepsSheltered(s: State, a: Action, id: nat)
    requires Sheltered(s, id) && (a.Extend? || a.LateExtend?) && Careful(a, id) && Enabled(s, a)
    ensures Sheltered(Next(s, a), id)
  {
    var s', item := Next(s, a), if a.Extend? then s.leases[a.token].item else a.id;
    StepKeepsFaithful(s, a);
    if item in s.table { ExtensionWrites(s, item, a.duration, a.minimum, a.data, a.sid); }
    forall t | LeasedTo(s', t, id)
      ensures LeasedTo(s, t, id) && (id in s'.table ==> Safe(s'.table[id], s'.leases[t].deadline))
    {
      assert LeasedTo(s, t, id) && !Exposed(s, t, id);
      if a.Extend? && item == id { assert LeasedTo(s, a.token, id); }
    }
    NoNewLease(s, s', id);
  }

  lemma ReleaseKeepsSheltered(s: State, a: Action, id: nat)
    requires Sheltered(s, id) && (a.Release? || a.LateRelease?) && Careful(a, id) && Enabled(s, a)
    ensures Sheltered(Next(s, a), id)
  {
    var s' := Next(s, a);
    if a.Release? { assert LeasedTo(s, a.token, s.leases[a.token].item); }
    StepKeepsFaithful(s, a);
    forall t | LeasedTo(s', t, id)
      ensures LeasedTo(s, t, id) && (id in s'.table ==> Safe(s'.table[id], s'.leases[t].deadline))
    {
      assert LeasedTo(s, t, id) && !Exposed(s, t, id);
    }
    NoNewLease(s, s', id);
  }

  lemma QuietStepKeepsSheltered(s: State, a: Action, id: nat)
    requires Sheltered(s, id) && (a.Tick? || a.Put? || a.Select? || a.Delete?) && Enabled(s, a)
    ensures Sheltered(Next(s, a), id)
  {
    var s' := Next(s, a);
    StepKeepsFaithful(s, a);
    forall t | LeasedTo(s', t, id)
      ensures LeasedTo(s, t, id) && (id in s'.table ==> Safe(s'.table[id], s'.leases[t].deadline))
    {
      assert !Exposed(s, t, id);
    }
    NoNewLease(s, s', id);
  }

  lemma StepKeepsSheltered(s: State, a: Action, id: nat)
    requires Sheltered(s, id) && Enabled(s, a) && Careful(a, id)
    ensures Sheltered(Next(s, a), id)
  {
    if a.TakeClaim? { ClaimKeepsSheltered(s, a, id); }
    else if a.Extend? || a.LateExtend? { ExtensionKeepsSheltered(s, a, id); }
    else if a.Release? || a.LateRelease? { ReleaseKeepsSheltered(s, a, id); }
    else { QuietStepKeepsSheltered(s, a, id); }
  }

  lemma {:induction false} RunKeepsSheltered(s: State, run: seq<Action>, id: nat)
    requires Sheltered(s, id) && Legal(s, run) && CarefulRun(run, id)
    ensures Sheltered(Exec(s, run), id)
    decreases |run|
  {
    if run != [] {
      RunKeepsSheltered(s, Front(run), id);
      StepKeepsSheltered(Exec(s, Front(run)), Last(run), id);
    }
  }

  /** In every interleaving, at every moment, an item that is treated carefully has at most one live lease. */
  lemma LeaseExclusion(clock: int, run: seq<Action>, id: nat)
    requires Legal(Init(clock), run) && CarefulRun(run, id)
    ensures Exclusive(Exec(Init(clock), run), id)
  {
    RunKeepsSheltered(Init(clock), run, id);
  }

  // ---------------------------------------------------------------- exactly when exclusion can be lost

  lemma {:induction false} FreshId(used: set<nat>) returns (n: nat)
    ensures forall x <- used :: x < n
  {
    if used == {} {
      n := 0;
    } else {
      var x :| x in used;
      var m := FreshId(used - {x});
      n := if m > x then m else x + 1;
      assert forall y <- used :: y == x || y in used - {x};
    }
  }

  lemma ExecSnoc(s: State, run: seq<Action>, a: Action)
    requires Legal(s, run) && Enabled(Exec(s, run), a)
    ensures Legal(s, run + [a]) && Exec(s, run + [a]) == Next(Exec(s, run), a)
  {
    assert Front(run + [a]) == run && Last(run + [a]) == a;
  }

  lemma ClaimMakesSecondLease(s: State, token: nat, sid: nat)
    requires Live(s, token) && s.leases[token].item in s.table && Available(s.table[s.leases[token].item], s.clock)
    requires sid !in s.minted && sid != token
    ensures var select, claim := Select(0, s.leases[token].item, s.clock), TakeClaim(0, 1, sid);
            && Enabled(s, select) && Enabled(Next(s, select), claim)
            && !Exclusive(Next(Next(s, select), claim), s.leases[token].item)
  {
    var select, claim := Select(0, s.leases[token].item, s.clock), TakeClaim(0, 1, sid);
    var s' := Next(Next(s, select), claim);
    assert LeasedTo(s', token, s.leases[token].item) && LeasedTo(s', sid, s.leases[token].item);
  }

  /** Once an item under a live lease is available, a select and a claim give it a second live lease. */
  lemma SecondLease(s: State, run: seq<Action>, token: nat, id: nat, sid: nat)
    requires Legal(s, run) && CarefulRun(run, id)
    requires var e := Exec(s, run);
             && LeasedTo(e, token, id) && id in e.table && Available(e.table[id], e.clock)
             && sid !in e.minted && sid != token
    ensures LosesExclusion(s, id)
  {
    var e := Exec(s, run);
    ClaimMakesSecondLease(e, token, sid);
    var run1 := run + [Select(0, id, e.clock)];
    ExecSnoc(s, run, Select(0, id, e.clock));
    ExecSnoc(s, run1, TakeClaim(0, 1, sid));
    assert CarefulRun(run1 + [TakeClaim(0, 1, sid)], id);
  }

  /** A claimed row that expires and falls due before the lease ends is available while the lease is live. */
  lemma WaitReachesAvailability(s: State, token: nat, id: nat) returns (d: nat)
    requires Exposed(s, token, id) && s.table[id].processingExpires.Some? && !s.table[id].available
    ensures var e := Next(s, Tick(d));
            LeasedTo(e, token, id) && id in e.table && Available(e.table[id], e.clock) && e.minted == s.minted
  {
    var r := s.table[id];
    var due := if r.processingExpires.value < r.availableAfter then r.availableAfter else r.processingExpires.value;
    d := if due < s.clock then 0 else due - s.clock;
  }

  lemma ShortRowIsClaimed(s: State, token: nat, id: nat)
    requires Exposed(s, token, id) && token in s.minted && s.table[id].processingExpires.Some? && !s.table[id].available
    ensures LosesExclusion(s, id)
  {
    var sid := FreshId(s.minted);
    var d := WaitReachesAvailability(s, token, id);
    ExecSnoc(s, [], Tick(d));
    SecondLease(s, [] + [Tick(d)], token, id, sid);
  }

  /** A heartbeat keeps the lease of a released row alive until the row falls due. */
  lemma HeartbeatReachesDueDate(s: State, token: nat, d: nat, sid: nat)
    requires Live(s, token) && sid !in s.minted && s.leases[token].item in s.table
    requires var r := s.table[s.leases[token].item];
             r.available && r.retriesRemaining > 0 && r.processingExpires.Some? && r.availableAfter <= s.clock + d
    ensures var beat := Extend(token, d + 1, 0, None, sid);
            var e, id := Next(Next(s, beat), Tick(d)), s.leases[token].item;
            && LeasedTo(e, token, id) && id in e.table && Available(e.table[id], e.clock)
            && e.minted == s.minted + {sid} && e.clock == s.clock + d
  {
    ExtensionReaches(s.table[s.leases[token].item], s.clock + d + 1, 0, None, sid);
  }

  /** A released row is claimed when it falls due, if need be after a heartbeat that keeps the lease alive until then. */
  lemma FreedRowIsClaimed(s: State, token: nat, id: nat)
    requires Exposed(s, token, id) && token in s.minted && s.table[id].processingExpires.Some? && s.table[id].available
    ensures LosesExclusion(s, id)
  {
    var r := s.table[id];
    var sid := FreshId(s.minted);
    var d := if r.availableAfter < s.clock then 0 else r.availableAfter - s.clock;
    var beat, wait := Extend(token, d + 1, 0, None, sid), Tick(d);
    HeartbeatReachesDueDate(s, token, d, sid);
    ExecSnoc(s, [], beat);
    ExecSnoc(s, [] + [beat], wait);
    SecondLease(s, [] + [beat] + [wait], token, id, sid + 1);
  }

  /** Some careful run gives the item two live leases. */
  ghost predicate LosesExclusion(s: State, id: nat) {
    exists run :: Legal(s, run) && CarefulRun(run, id) && !Exclusive(Exec(s, run), id)
  }

  /** Some careful run loses exclusion if and only if a live lease is exposed: being sheltered is the weakest invariant. */
  lemma ExclusionLostIff(s: State, id: nat)
    requires Faithful(s) && Exclusive(s, id)
    ensures LosesExclusion(s, id) <==> exists t :: Exposed(s, t, id)
  {
    if t :| Exposed(s, t, id) {
      if s.table[id].available { FreedRowIsClaimed(s, t, id); } else { ShortRowIsClaimed(s, t, id); }
    } else {
      forall run | Legal(s, run) && CarefulRun(run, id) ensures Exclusive(Exec(s, run), id) {
        RunKeepsSheltered(s, run, id);
      }
    }
  }

  lemma SameLeases(s: State, s': State, id: nat)
    requires s'.leases == s.leases && s'.clock == s.clock
    ensures Exclusive(s', id) <==> Exclusive(s, id)
    ensures forall t :: LeasedTo(s', t, id) <==> LeasedTo(s, t, id)
  {
    forall t ensures LeasedTo(s', t, id) <==> LeasedTo(s, t, id) {}
  }

  /**
    The discipline on incomplete() is needed: a release by anybody makes exclusion lost in some run if and only if the
    item is leased and is left with a retry, however long the retry is put off.
   */
  lemma LateReleaseBreaksIff(s: State, id: nat, retryAfter: int, restoreRetry: bool, sid: nat)
    requires Sheltered(s, id) && id in s.table && sid !in s.minted
    ensures LosesExclusion(Next(s, LateRelease(id, retryAfter, restoreRetry, sid)), id) <==>
              && (exists t :: LeasedTo(s, t, id))
              && s.table[id].retriesRemaining + (if restoreRetry then 1 else 0) > 0
  {
    var s' := Next(s, LateRelease(id, retryAfter, restoreRetry, sid));
    StepKeepsFaithful(s, LateRelease(id, retryAfter, restoreRetry, sid));
    SameLeases(s, s', id);
    forall t ensures Exposed(s', t, id) <==> LeasedTo(s, t, id) && s'.table[id].retriesRemaining > 0 {}
    ExclusionLostIff(s', id);
  }

  /** The extension is written, ends before the lease does, and leaves the row claimable in between. */
  predicate CutsShort(r: Row, deadline: int, newExpiration: int, minimum: int) {
    && r.processingExpires.Some? && newExpiration - r.processingExpires.value > minimum
    && newExpiration < deadline && r.availableAfter < deadline && r.retriesRemaining > 0
  }

  lemma LateExtensionExposes(s: State, id: nat, duration: int, minimum: int, data: Option<string>, sid: nat, t: nat)
    requires Sheltered(s, id) && id in s.table && sid !in s.minted
    ensures Exposed(Next(s, LateExtend(id, duration, minimum, data, sid)), t, id) <==>
              LeasedTo(s, t, id) && CutsShort(s.table[id], s.leases[t].deadline, s.clock + duration, minimum)
  {
    assert !Exposed(s, t, id);
    ExtensionWrites(s, id, duration, minimum, data, sid);
    SameLeases(s, Next(s, LateExtend(id, duration, minimum, data, sid)), id);
  }

  /**
    An extension by anybody makes exclusion lost in some run if and only if it moves the expiry of a leased item to before
    the end of the lease, which only a negative minimum extension allows, and the item is due and has a retry left by then.
   */
  lemma LateExtensionBreaksIff(s: State, id: nat, duration: int, minimum: int, data: Option<string>, sid: nat)
    requires Sheltered(s, id) && id in s.table && sid !in s.minted
    ensures LosesExclusion(Next(s, LateExtend(id, duration, minimum, data, sid)), id) <==>
              exists t :: LeasedTo(s, t, id) && CutsShort(s.table[id], s.leases[t].deadline, s.clock + duration, minimum)
  {
    var s' := Next(s, LateExtend(id, duration, minimum, data, sid));
    StepKeepsFaithful(s, LateExtend(id, duration, minimum, data, sid));
    SameLeases(s, s', id);
    forall t
      ensures Exposed(s', t, id) <==>
                (LeasedTo(s, t, id) && CutsShort(s.table[id], s.leases[t].deadline, s.clock + duration, minimum))
    {
      LateExtensionExposes(s, id, duration, minimum, data, sid, t);
    }
    ExclusionLostIff(s', id);
  }

  // ---------------------------------------------------------------- the narrow claim

  /**
    Matching only the id and the state id is as safe as rechecking every column: after any
    run, whoever called what, the two claims have the same effect, a hit means the row is, field for
    field, the one that was selected, and the retry count of the view handed back is the row's.
   */
  lemma NarrowClaimIsWideClaim(clock: int, run: seq<Action>, w: nat, processingTime: int, sid: nat)
    requires Legal(Init(clock), run)
    requires w in Exec(Init(clock), run).snaps
    ensures var s := Exec(Init(clock), run);
            var snap := s.snaps[w];
            var narrow := Claim(s.table, snap.item, snap.row.stateId, snap.now, processingTime, sid);
            && narrow == WideClaim(s.table, snap.item, snap.row.stateId, snap.now, processingTime, sid)
            && (narrow.1 <==> snap.item in s.table && s.table[snap.item] == snap.row)
            && (narrow.1 ==>
                  var r := s.table[snap.item];
                  && r.availableAfter <= snap.now && r.retriesRemaining > 0
                  && (r.available || (r.processingExpires.Some? && r.processingExpires.value <= snap.now))
                  && narrow.0[snap.item].retriesRemaining == r.retriesRemaining - 1 == snap.row.retriesRemaining - 1
                  && narrow.0[snap.item].body == r.body == snap.row.body)
  {
    RunKeepsFaithful(Init(clock), run);
  }

  /** An extension by a worker that ever claimed the item never meets a NULL expiry, so it never raises. */
  lemma HolderExtensionNeverRaises(clock: int, run: seq<Action>, token: nat, newExpiration: int, minimum: int,
                                   data: Option<string>, sid: nat)
    requires Legal(Init(clock), run) && token in Exec(Init(clock), run).leases
    ensures var s := Exec(Init(clock), run);
            var id := s.leases[token].item;
            id in s.table ==> !ExtendRow(s.table[id], newExpiration, minimum, data, sid).Unsubtractable?
  {
    RunKeepsFaithful(Init(clock), run);
  }

  // ---------------------------------------------------------------- retries

  predicate ClaimsNow(s: State, a: Action, id: nat)
    requires Enabled(s, a)
  {
    a.TakeClaim? && s.snaps[a.worker].item == id && ClaimHits(s.table, id, s.snaps[a.worker].row.stateId)
  }

  /** The item a release is about, whether by its holder or by anybody. */
  function ReleasedItem(s: State, a: Action): nat
    requires Enabled(s, a) && (a.Release? || a.LateRelease?)
  {
    if a.Release? then s.leases[a.token].item else a.id
  }

  predicate RestoresNow(s: State, a: Action, id: nat)
    requires Enabled(s, a)
  {
    (a.Release? || a.LateRelease?) && a.restoreRetry && ReleasedItem(s, a) == id && id in s.table
  }

  /** Successful claims of an item in a run. */
  function Claims(s: State, run: seq<Action>, id: nat): nat
    requires Legal(s, run)
    decreases |run|
  {
    if run == [] then 0
    else Claims(s, Front(run), id) + if ClaimsNow(Exec(s, Front(run)), Last(run), id) then 1 else 0
  }

  /** Retries given back to an item in a run. */
  function Restores(s: State, run: seq<Action>, id: nat): nat
    requires Legal(s, run)
    decreases |run|
  {
    if run == [] then 0
    else Restores(s, Front(run), id) + if RestoresNow(Exec(s, Front(run)), Last(run), id) then 1 else 0
  }

  /** The retries an item was put with; 0 for an id never handed out. */
  function PutWith(s: State, run: seq<Action>, id: nat): int
    requires Legal(s, run)
    decreases |run|
  {
    if run == [] then 0
    else if Last(run).Put? && Exec(s, Front(run)).nextId == id then Last(run).item.retries
    else PutWith(s, Front(run), id)
  }

  /** How one step moves the retry count of an existing row. */
  lemma StepRetries(s: State, a: Action, id: nat)
    requires Faithful(s) && Enabled(s, a)
    requires id in Next(s, a).table && id < s.nextId
    ensures id in s.table
    ensures Next(s, a).table[id].retriesRemaining == s.table[id].retriesRemaining
              - (if ClaimsNow(s, a, id) then 1 else 0) + (if RestoresNow(s, a, id) then 1 else 0)
    ensures ClaimsNow(s, a, id) ==> s.table[id].retriesRemaining > 0
  {}

  lemma StepLeavesUnusedId(s: State, a: Action, id: nat)
    requires Faithful(s) && Enabled(s, a) && id >= s.nextId
    ensures !ClaimsNow(s, a, id) && !RestoresNow(s, a, id)
  {}

  lemma NextIdGrows(s: State, a: Action)
    requires Enabled(s, a)
    ensures Next(s, a).nextId >= s.nextId
  {}

  /** Nothing is claimed or given back before an id is handed out. */
  lemma {:induction false} UnusedIdCountsNothing(clock: int, run: seq<Action>, id: nat)
    requires Legal(Init(clock), run) && id >= Exec(Init(clock), run).nextId
    ensures Claims(Init(clock), run, id) == 0 && Restores(Init(clock), run, id) == 0
    decreases |run|
  {
    if run != [] {
      RunKeepsFaithful(Init(clock), Front(run));
      NextIdGrows(Exec(Init(clock), Front(run)), Last(run));
      UnusedIdCountsNothing(clock, Front(run), id);
      StepLeavesUnusedId(Exec(Init(clock), Front(run)), Last(run), id);
    }
  }

  /**
    Retry conservation over every run: a stored item has exactly the retries it was put with,
    minus its successful claims, plus the retries given back; and the claims of any item,
    stored or already deleted, never exceed what it was put with plus what was given back.
   */
  lemma {:induction false} RetryConservation(clock: int, run: seq<Action>, id: nat)
    requires Legal(Init(clock), run)
    ensures var s := Exec(Init(clock), run);
            var put, claims, restores :=
              PutWith(Init(clock), run, id), Claims(Init(clock), run, id), Restores(Init(clock), run, id);
            && (id in s.table ==> s.table[id].retriesRemaining == put - claims + restores)
            && claims <= (if put < 0 then 0 else put) + restores
            && (id in s.table && put >= 0 ==> s.table[id].retriesRemaining >= 0)
    decreases |run|
  {
    if run != [] {
      var s, a := Exec(Init(clock), Front(run)), Last(run);
      RunKeepsFaithful(Init(clock), Front(run));
      RetryConservation(clock, Front(run), id);
      if a.Put? && s.nextId == id {
        UnusedIdCountsNothing(clock, Front(run), id);
      } else {
        if id in Next(s, a).table { StepRetries(s, a, id); }
        if ClaimsNow(s, a, id) { StepRetries(s, a, id); }
      }
    }
  }

  /** When an item last fell due, or will: its delay after it was put, or the retry time after its last release. */
  function DueAt(s: State, run: seq<Action>, id: nat): int
    requires Legal(s, run)
    decreases |run|
  {
    if run == [] then 0
    else
      var s1, a := Exec(s, Front(run)), Last(run);
      if a.Put? && s1.nextId == id then s1.clock + a.item.delay
      else if (a.Release? || a.LateRelease?) && ReleasedItem(s1, a) == id && id in s1.table then s1.clock + a.retryAfter
      else DueAt(s, Front(run), id)
  }

  lemma StepDueDate(s: State, a: Action, id: nat)
    requires Faithful(s) && Enabled(s, a) && id in Next(s, a).table
    ensures Next(s, a).table[id].availableAfter ==
              if a.Put? && s.nextId == id then s.clock + a.item.delay
              else if (a.Release? || a.LateRelease?) && ReleasedItem(s, a) == id then s.clock + a.retryAfter
              else if id in s.table then s.table[id].availableAfter else 0
    ensures id in s.table || (a.Put? && s.nextId == id)
  {}

  lemma {:induction false} RowsKnowTheirDueDate(clock: int, run: seq<Action>, id: nat)
    requires Legal(Init(clock), run) && id in Exec(Init(clock), run).table
    ensures Exec(Init(clock), run).table[id].availableAfter == DueAt(Init(clock), run, id)
    decreases |run|
  {
    if run != [] {
      var s := Exec(Init(clock), Front(run));
      RunKeepsFaithful(Init(clock), Front(run));
      StepDueDate(s, Last(run), id);
      if id in s.table { RowsKnowTheirDueDate(clock, Front(run), id); }
    }
  }

  /** No item is claimed before it is due: not before its delay, and after a release not before the retry time. */
  lemma NoEarlyClaim(clock: int, run: seq<Action>, a: Action, id: nat)
    requires Legal(Init(clock), run) && Enabled(Exec(Init(clock), run), a)
    requires ClaimsNow(Exec(Init(clock), run), a, id)
    ensures DueAt(Init(clock), run, id) <= Exec(Init(clock), run).clock
  {
    RunKeepsFaithful(Init(clock), run);
    RowsKnowTheirDueDate(clock, run, id);
  }

  // ---------------------------------------------------------------- names and bodies

  /** The name an item was put under. */
  function NameOf(s: State, run: seq<Action>, id: nat): string
    requires Legal(s, run)
    decreases |run|
  {
    if run == [] then ""
    else if Last(run).Put? && Exec(s, Front(run)).nextId == id then Last(run).item.queueName
    else NameOf(s, Front(run), id)
  }

  /** The data an extension leaves in the item: nothing, if it carries none or meets a NULL expiry. */
  function NewData(s: State, a: Action, id: nat): Option<string>
    requires Enabled(s, a)
  {
    if (a.Extend? && s.leases[a.token].item == id) || (a.LateExtend? && a.id == id)
    then if id in s.table && s.table[id].processingExpires.Some? then a.data else None
    else None
  }

  /** The body an item was put with, or the data of its last extension that carried data. */
  function BodyOf(s: State, run: seq<Action>, id: nat): string
    requires Legal(s, run)
    decreases |run|
  {
    if run == [] then ""
    else
      var s1, a := Exec(s, Front(run)), Last(run);
      if a.Put? && s1.nextId == id then a.item.body
      else if NewData(s1, a, id).Some? then NewData(s1, a, id).value
      else BodyOf(s, Front(run), id)
  }

  lemma StepContents(s: State, a: Action, id: nat)
    requires RowsMinted(s) && Enabled(s, a) && id in Next(s, a).table
    ensures id in s.table || (a.Put? && s.nextId == id)
    ensures a.Put? && s.nextId == id ==>
              Next(s, a).table[id].queueName == a.item.queueName && Next(s, a).table[id].body == a.item.body
    ensures !(a.Put? && s.nextId == id) ==>
              && Next(s, a).table[id].queueName == s.table[id].queueName
              && Next(s, a).table[id].body
                 == if NewData(s, a, id).Some? then NewData(s, a, id).value else s.table[id].body
  {}

  /** Nothing but an extension with data ever changes what a stored item is about, in any run. */
  lemma {:induction false} RowsKeepTheirContents(clock: int, run: seq<Action>, id: nat)
    requires Legal(Init(clock), run) && id in Exec(Init(clock), run).table
    ensures var r := Exec(Init(clock), run).table[id];
            r.queueName == NameOf(Init(clock), run, id) && r.body == BodyOf(Init(clock), run, id)
    decreases |run|
  {
    if run != [] {
      var s := Exec(Init(clock), Front(run));
      RunKeepsFaithful(Init(clock), Front(run));
      StepContents(s, Last(run), id);
      if id in s.table { RowsKeepTheirContents(clock, Front(run), id); }
    }
  }

  lemma StepBringsNothingBack(s: State, a: Action, id: nat)
    requires RowsMinted(s) && Enabled(s, a) && id < s.nextId && id !in s.table
    ensures id !in Next(s, a).table && id < Next(s, a).nextId
  {}

  lemma {:induction false} GoneStaysGone(s: State, run: seq<Action>, id: nat)
    requires Faithful(s) && Legal(s, run) && id < s.nextId && id !in s.table
    ensures id !in Exec(s, run).table && id < Exec(s, run).nextId
    decreases |run|
  {
    if run != [] {
      GoneStaysGone(s, Front(run), id);
      RunKeepsFaithful(s, Front(run));
      StepBringsNothingBack(Exec(s, Front(run)), Last(run), id);
    }
  }

  /** A deleted item is gone for good: it is never stored again, and never claimed again, in any run. */
  lemma {:induction false} DeletionIsFinal(clock: int, before: seq<Action>, ids: set<nat>, run: seq<Action>, id: nat)
    requires Legal(Init(clock), before) && id in Exec(Init(clock), before).table && id in ids
    requires Legal(Next(Exec(Init(clock), before), Delete(ids)), run)
    ensures var s := Next(Exec(Init(clock), before), Delete(ids));
            id !in Exec(s, run).table && Claims(s, run, id) == 0
    decreases |run|
  {
    var s0 := Exec(Init(clock), before);
    var s := Next(s0, Delete(ids));
    RunKeepsFaithful(Init(clock), before);
    StepKeepsFaithful(s0, Delete(ids));
    GoneStaysGone(s, run, id);
    if run != [] {
      DeletionIsFinal(clock, before, ids, Front(run), id);
      GoneStaysGone(s, Front(run), id);
    }
  }

  // ---------------------------------------------------------------- heartbeats

  /** A live lease keeps its row, if it still exists, claimed at least until the deadline. */
  ghost predicate Guarded(s: State, id: nat) {
    forall t | LeasedTo(s, t, id) && id in s.table ::
      var r := s.table[id];
      !r.available && r.processingExpires.Some? && r.processingExpires.value >= s.leases[t].deadline
  }

  ghost predicate Inv(s: State, id: nat) { Faithful(s) && Exclusive(s, id) && Guarded(s, id) }

  lemma InvIsSheltered(s: State, id: nat)
    requires Inv(s, id)
    ensures Sheltered(s, id)
  {
    forall t ensures !Exposed(s, t, id) {}
  }

  lemma ClaimKeepsGuard(s: State, a: Action, id: nat)
    requires Inv(s, id) && a.TakeClaim? && Enabled(s, a)
    ensures Guarded(Next(s, a), id)
  {
    var snap, s' := s.snaps[a.worker], Next(s, a);
    InvIsSheltered(s, id);
    if snap.item == id && ClaimHits(s.table, id, snap.row.stateId) {
      forall t ensures !LeasedTo(s, t, id) { ClaimFindsNoLease(s, a.worker, t); }
      forall t | LeasedTo(s', t, id) ensures t == a.sid { assert !LeasedTo(s, t, id); }
    } else {
      forall t | LeasedTo(s', t, id) ensures LeasedTo(s, t, id) {}
    }
  }

  lemma OtherStepsKeepGuard(s: State, a: Action, id: nat)
    requires Inv(s, id) && Enabled(s, a) && Careful(a, id) && !a.TakeClaim?
    ensures Guarded(Next(s, a), id)
  {
    var s' := Next(s, a);
    if a.Extend? || a.LateExtend? {
      var item := if a.Extend? then s.leases[a.token].item else a.id;
      if item in s.table { ExtensionWrites(s, item, a.duration, a.minimum, a.data, a.sid); }
    }
    if a.Extend? || a.Release? { assert LeasedTo(s, a.token, s.leases[a.token].item); }
    forall t | LeasedTo(s', t, id) ensures LeasedTo(s, t, id) {}
  }

  lemma StepKeepsInv(s: State, a: Action, id: nat)
    requires Inv(s, id) && Enabled(s, a) && Careful(a, id)
    ensures Inv(Next(s, a), id)
  {
    InvIsSheltered(s, id);
    StepKeepsSheltered(s, a, id);
    if a.TakeClaim? { ClaimKeepsGuard(s, a, id); } else { OtherStepsKeepGuard(s, a, id); }
  }

  lemma {:induction false} RunKeepsInv(s: State, run: seq<Action>, id: nat)
    requires Inv(s, id) && Legal(s, run) && CarefulRun(run, id)
    ensures Inv(Exec(s, run), id)
    decreases |run|
  {
    if run != [] {
      RunKeepsInv(s, Front(run), id);
      StepKeepsInv(Exec(s, Front(run)), Last(run), id);
    }
  }

  /**
    How long the holder of `token` may count on its lease: up to the deadline it starts with,
    then up to (duration - minimum) after its last heartbeat.
   */
  function Promise(s: State, run: seq<Action>, token: nat): int
    requires Legal(s, run) && token in s.leases
    decreases |run|
  {
    if run == [] then s.leases[token].deadline
    else if Last(run).Extend? && Last(run).token == token
    then Exec(s, Front(run)).clock + Last(run).duration - Last(run).minimum
    else Promise(s, Front(run), token)
  }

  /**
    The holder beats in time: every heartbeat asks for `duration` with minimum extension
    `minimum`, the clock never reaches the promise, the holder does not give
    the item back and nobody deletes it.
   */
  predicate Beats(s: State, run: seq<Action>, token: nat, duration: int, minimum: int)
    requires Legal(s, run) && token in s.leases
    decreases |run|
  {
    run == [] ||
    var a := Last(run);
    && Beats(s, Front(run), token, duration, minimum)
    && (a.Extend? && a.token == token ==> a.duration == duration && a.minimum == minimum)
    && !(a.Release? && a.token == token)
    && !(a.Delete? && s.leases[token].item in a.ids)
    && Exec(s, run).clock < Promise(s, run, token)
  }

  /** The lease of `token` on `id` is intact and reaches to the promise. */
  predicate Holds(s: State, token: nat, id: nat, promise: int) {
    && LeasedTo(s, token, id)
    && s.leases[token].deadline >= promise
    && id in s.table
    && Running(s.table[id], s.clock)
  }

  /** The holder's own heartbeat renews the lease up to the new promise. */
  lemma HeartbeatRenews(s: State, a: Action, id: nat, promise: int)
    requires a.Extend? && a.minimum >= 0 && Enabled(s, a) && Holds(s, a.token, id, promise)
    requires s.clock < s.clock + a.duration - a.minimum
    ensures Holds(Next(s, a), a.token, id, s.clock + a.duration - a.minimum)
  {}

  /** No other careful step takes the lease away while the clock stays below the promise. */
  lemma OthersLeaveLease(s: State, a: Action, token: nat, id: nat, promise: int)
    requires Inv(s, id) && Enabled(s, a) && Careful(a, id) && Holds(s, token, id, promise)
    requires !((a.Extend? || a.Release?) && a.token == token)
    requires !(a.Delete? && id in a.ids)
    requires Next(s, a).clock < promise
    ensures Holds(Next(s, a), token, id, promise)
  {
    StepKeepsInv(s, a, id);
    var s' := Next(s, a);
    assert token in s'.leases && s'.leases[token] == s.leases[token] && id in s'.table;
    assert LeasedTo(s', token, id);
  }

  lemma HeldItemIsNotClaimed(s: State, a: Action, token: nat, id: nat, promise: int)
    requires Faithful(s) && Enabled(s, a) && Holds(s, token, id, promise)
    ensures !ClaimsNow(s, a, id)
  {}

  /**
    Heartbeat safety over whole runs: a worker that keeps every gap strictly below
    (duration - minimum) never loses its lease, and meanwhile nobody claims its item.
    In particular its next heartbeat always finds the lease still live.
   */
  lemma {:induction false} HeartbeatSafety(s: State, run: seq<Action>, token: nat, id: nat, duration: int, minimum: int)
    requires Inv(s, id) && LeasedTo(s, token, id) && id in s.table
    requires minimum >= 0
    requires Legal(s, run) && CarefulRun(run, id) && Beats(s, run, token, duration, minimum)
    ensures Holds(Exec(s, run), token, id, Promise(s, run, token)) && Claims(s, run, id) == 0
    decreases |run|
  {
    if run != [] {
      var s1, a := Exec(s, Front(run)), Last(run);
      HeartbeatSafety(s, Front(run), token, id, duration, minimum);
      RunKeepsInv(s, Front(run), id);
      HeldItemIsNotClaimed(s1, a, token, id, Promise(s, Front(run), token));
      if a.Extend? && a.token == token {
        HeartbeatRenews(s1, a, id, Promise(s, Front(run), token));
      } else {
        OthersLeaveLease(s1, a, token, id, Promise(s, Front(run), token));
      }
    }
  }

  /** Heartbeat safety from any reachable state: `before` leads to the state in which the holder starts beating. */
  lemma HeartbeatNeverLosesLease(clock: int, before: seq<Action>, run: seq<Action>, token: nat, id: nat,
                                 duration: int, minimum: int)
    requires Legal(Init(clock), before) && CarefulRun(before + run, id)
    requires var s := Exec(Init(clock), before);
             && LeasedTo(s, token, id) && id in s.table && minimum >= 0
             && Legal(s, run) && Beats(s, run, token, duration, minimum)
    ensures var s := Exec(Init(clock), before);
            Holds(Exec(s, run), token, id, Promise(s, run, token)) && Claims(s, run, id) == 0
  {
    assert forall i | 0 <= i < |before| :: before[i] == (before + run)[i];
    assert forall i | 0 <= i < |run| :: run[i] == (before + run)[|before| + i];
    RunKeepsInv(Init(clock), before, id);
    HeartbeatSafety(Exec(Init(clock), before), run, token, id, duration, minimum);
  }

  // ---------------------------------------------------------------- ordered mode

  /** No two rows of one name are running. */
  ghost predicate OneRunningPerName(s: State) {
    forall i, j | i in s.table && j in s.table
               && Running(s.table[i], s.clock) && Running(s.table[j], s.clock)
               && s.table[i].queueName == s.table[j].queueName :: i == j
  }

  /** Another row of this name is running. */
  predicate OtherRunning(s: State, id: nat, name: string) {
    exists j <- s.table.Keys :: j != id && s.table[j].queueName == name && Running(s.table[j], s.clock)
  }

  /**
    A claim that hits, whenever it was selected, keeps one running row per name exactly when
    no other row of that name is running at that moment, or the claim is already past its own deadline.
   */
  lemma SplitClaimKeepsOrderIff(s: State, w: nat, processingTime: int, sid: nat)
    requires Faithful(s) && OneRunningPerName(s)
    requires Enabled(s, TakeClaim(w, processingTime, sid))
    requires ClaimHits(s.table, s.snaps[w].item, s.snaps[w].row.stateId)
    ensures var snap := s.snaps[w];
            OneRunningPerName(Next(s, TakeClaim(w, processingTime, sid))) <==>
              snap.now + processingTime <= s.clock || !OtherRunning(s, snap.item, snap.row.queueName)
  {
    var snap := s.snaps[w];
    var s' := Next(s, TakeClaim(w, processingTime, sid));
    OneRowMoved(s, s', snap.item);
  }

  /** When a single row is written, the order is kept exactly if that row does not run beside another of its name. */
  lemma OneRowMoved(s: State, s': State, id: nat)
    requires OneRunningPerName(s) && id in s.table && s'.table.Keys == s.table.Keys && s'.clock == s.clock
    requires forall j <- s.table.Keys :: j != id ==> s'.table[j] == s.table[j]
    ensures OneRunningPerName(s') <==>
              !Running(s'.table[id], s.clock) || !OtherRunning(s, id, s'.table[id].queueName)
  {
    if j :| j in s.table && j != id && s.table[j].queueName == s'.table[id].queueName && Running(s.table[j], s.clock) {
      assert s'.table[j] == s.table[j];
    }
  }

  /** The item an extension is about, whether by its holder or by anybody. */
  function ExtendedItem(s: State, a: Action): nat
    requires Enabled(s, a) && (a.Extend? || a.LateExtend?)
  {
    if a.Extend? then s.leases[a.token].item else a.id
  }

  /** An extension keeps the order exactly when it leaves the row at rest or no other row of its name is running. */
  lemma ExtensionKeepsOrderIff(s: State, a: Action)
    requires RowsMinted(s) && OneRunningPerName(s) && (a.Extend? || a.LateExtend?) && Enabled(s, a)
    requires ExtendedItem(s, a) in s.table
    ensures var id := ExtendedItem(s, a);
            OneRunningPerName(Next(s, a)) <==>
              || !RunsAfter(s.table[id], s.clock, s.clock + a.duration, a.minimum)
              || !OtherRunning(s, id, s.table[id].queueName)
  {
    var id := ExtendedItem(s, a);
    ExtensionWrites(s, id, a.duration, a.minimum, a.data, a.sid);
    OneRowMoved(s, Next(s, a), id);
  }

  /** A claimed row runs after an extension if it ran before, or the extension is written and ends in the future. */
  predicate RunsAfter(r: Row, now: int, newExpiration: int, minimum: int) {
    && !r.available && r.processingExpires.Some?
    && (if newExpiration - r.processingExpires.value > minimum then newExpiration else r.processingExpires.value) > now
  }

  /** The step sets no row running beside another of its name; decided before the step is taken. */
  predicate OrderlyStep(s: State, a: Action)
    requires Enabled(s, a)
  {
    match a
    case TakeClaim(w, processingTime, _) =>
      var snap := s.snaps[w];
      || !ClaimHits(s.table, snap.item, snap.row.stateId)
      || snap.now + processingTime <= s.clock
      || !OtherRunning(s, snap.item, snap.row.queueName)
    case Extend(_, duration, minimum, _, _) => OrderlyExtension(s, ExtendedItem(s, a), duration, minimum)
    case LateExtend(id, duration, minimum, _, _) => OrderlyExtension(s, id, duration, minimum)
    case _ => true
  }

  predicate OrderlyExtension(s: State, id: nat, duration: int, minimum: int) {
    || id !in s.table
    || !RunsAfter(s.table[id], s.clock, s.clock + duration, minimum)
    || !OtherRunning(s, id, s.table[id].queueName)
  }

  /** No step but a claim or an extension sets a row running. */
  lemma StepStartsNothing(s: State, a: Action, i: nat)
    requires RowsMinted(s) && Enabled(s, a) && !a.TakeClaim? && !a.Extend? && !a.LateExtend?
    requires i in Next(s, a).table && Running(Next(s, a).table[i], Next(s, a).clock)
    ensures i in s.table && Running(s.table[i], s.clock) && Next(s, a).table[i].queueName == s.table[i].queueName
  {}

  lemma OtherStepsKeepOrder(s: State, a: Action)
    requires RowsMinted(s) && OneRunningPerName(s) && Enabled(s, a) && !a.TakeClaim? && !a.Extend? && !a.LateExtend?
    ensures OneRunningPerName(Next(s, a))
  {
    var s' := Next(s, a);
    forall i | i in s'.table && Running(s'.table[i], s'.clock)
      ensures i in s.table && Running(s.table[i], s.clock) && s'.table[i].queueName == s.table[i].queueName
    {
      StepStartsNothing(s, a, i);
    }
  }

  lemma StepKeepsOrderIff(s: State, a: Action)
    requires Faithful(s) && OneRunningPerName(s) && Enabled(s, a)
    ensures OneRunningPerName(Next(s, a)) <==> OrderlyStep(s, a)
  {
    if a.TakeClaim? {
      var snap := s.snaps[a.worker];
      if ClaimHits(s.table, snap.item, snap.row.stateId) {
        SplitClaimKeepsOrderIff(s, a.worker, a.processingTime, a.sid);
      }
    } else if a.Extend? || a.LateExtend? {
      if ExtendedItem(s, a) in s.table { ExtensionKeepsOrderIff(s, a); }
    } else {
      OtherStepsKeepOrder(s, a);
    }
  }

  /** Every step of the run is orderly when it is taken. */
  predicate Orderly(s: State, run: seq<Action>)
    requires Legal(s, run)
    decreases |run|
  {
    run == [] || (Orderly(s, Front(run)) && OrderlyStep(Exec(s, Front(run)), Last(run)))
  }

  /** One row per name is running at every moment of the run. */
  ghost predicate OrderedThroughout(s: State, run: seq<Action>)
    requires Legal(s, run)
    decreases |run|
  {
    OneRunningPerName(Exec(s, run)) && (run == [] || OrderedThroughout(s, Front(run)))
  }

  /**
    Any run of the queue, with selects and claims apart and extensions and releases by anybody, has one running row
    per name at every moment if and only if each claim and each extension is orderly when it is made.
   */
  lemma {:induction false} OrderedThroughoutIff(clock: int, run: seq<Action>)
    requires Legal(Init(clock), run)
    ensures OrderedThroughout(Init(clock), run) <==> Orderly(Init(clock), run)
    decreases |run|
  {
    if run != [] {
      OrderedThroughoutIff(clock, Front(run));
      RunKeepsFaithful(Init(clock), Front(run));
      var s := Exec(Init(clock), Front(run));
      if OneRunningPerName(s) { StepKeepsOrderIff(s, Last(run)); }
    }
  }

  /** A move of an ordered run: an uninterrupted ordered get(), or any other careful step; a late extension must be orderly. */
  datatype Move =
    | OrderedGet(worker: nat, id: nat, now: int, processingTime: int, sid: nat, matches: string -> bool)
    | Step(action: Action)

  predicate MoveEnabled(s: State, m: Move) {
    match m
    case OrderedGet(_, id, now, _, sid, matches) =>
      now <= s.clock && OrderedPick(s.table, matches, now, id) && sid !in s.minted
    case Step(a) =>
      && Enabled(s, a) && !a.Select? && !a.TakeClaim? && !a.LateRelease?
      && (a.LateExtend? ==> a.minimum >= 0 && OrderlyStep(s, a))
  }

  function MoveNext(s: State, m: Move): State
    requires MoveEnabled(s, m)
  {
    match m
    case OrderedGet(w, id, now, processingTime, sid, _) =>
      Next(Next(s, Select(w, id, now)), TakeClaim(w, processingTime, sid))
    case Step(a) => Next(s, a)
  }

  predicate MovesLegal(s: State, moves: seq<Move>)
    decreases |moves|, 0
  {
    moves == [] || (MovesLegal(s, Front(moves)) && MoveEnabled(MovesExec(s, Front(moves)), Last(moves)))
  }

  function MovesExec(s: State, moves: seq<Move>): State
    requires MovesLegal(s, moves)
    decreases |moves|, 1
  {
    if moves == [] then s else MoveNext(MovesExec(s, Front(moves)), Last(moves))
  }

  ghost predicate AllInv(s: State) { forall id :: Inv(s, id) }

  /** Under careful treatment a holder's extension is orderly: its row is running already. */
  lemma HolderExtensionIsOrderly(s: State, a: Action)
    requires AllInv(s) && OneRunningPerName(s) && a.Extend? && Enabled(s, a)
    ensures OrderlyStep(s, a)
  {
    var id := ExtendedItem(s, a);
    assert Inv(s, id) && LeasedTo(s, a.token, id);
  }

  lemma CarefulStepKeepsAllInv(s: State, a: Action)
    requires AllInv(s) && Enabled(s, a) && !a.LateRelease? && (a.LateExtend? ==> a.minimum >= 0)
    ensures AllInv(Next(s, a))
  {
    forall id ensures Inv(Next(s, a), id) {
      assert Inv(s, id);
      StepKeepsInv(s, a, id);
    }
  }

  /** An ordered pick that is claimed at once is orderly, also when the clock reading it used lags. */
  lemma OrderedGetKeepsOrder(s: State, m: Move)
    requires AllInv(s) && OneRunningPerName(s) && MoveEnabled(s, m) && m.OrderedGet?
    ensures AllInv(MoveNext(s, m)) && OneRunningPerName(MoveNext(s, m))
  {
    var select, claim := Select(m.worker, m.id, m.now), TakeClaim(m.worker, m.processingTime, m.sid);
    var s1 := Next(s, select);
    assert Inv(s, m.id);
    CarefulStepKeepsAllInv(s, select);
    CarefulStepKeepsAllInv(s1, claim);
    OtherStepsKeepOrder(s, select);
    PickHasNoRunningNamesake(s, m);
    assert s1.table == s.table && s1.clock == s.clock;
    assert !OtherRunning(s1, m.id, s.table[m.id].queueName);
    assert Inv(s1, m.id);
    StepKeepsOrderIff(s1, claim);
  }

  lemma PickHasNoRunningNamesake(s: State, m: Move)
    requires MoveEnabled(s, m) && m.OrderedGet?
    ensures !OtherRunning(s, m.id, s.table[m.id].queueName)
  {
    forall j | j in s.table && Running(s.table[j], s.clock) ensures s.table[j].queueName != s.table[m.id].queueName {
      assert Running(s.table[j], m.now);
    }
  }

  lemma MoveKeepsOrder(s: State, m: Move)
    requires AllInv(s) && OneRunningPerName(s) && MoveEnabled(s, m)
    ensures AllInv(MoveNext(s, m)) && OneRunningPerName(MoveNext(s, m))
  {
    if m.OrderedGet? {
      OrderedGetKeepsOrder(s, m);
    } else {
      assert Inv(s, 0);
      CarefulStepKeepsAllInv(s, m.action);
      if m.action.Extend? { HolderExtensionIsOrderly(s, m.action); }
      StepKeepsOrderIff(s, m.action);
    }
  }

  lemma {:induction false} MovesKeepOrder(s: State, moves: seq<Move>)
    requires AllInv(s) && OneRunningPerName(s) && MovesLegal(s, moves)
    ensures AllInv(MovesExec(s, moves)) && OneRunningPerName(MovesExec(s, moves))
    decreases |moves|
  {
    if moves != [] {
      MovesKeepOrder(s, Front(moves));
      MoveKeepsOrder(MovesExec(s, Front(moves)), Last(moves));
    }
  }

  /** When every get() is ordered and uninterrupted, one item per name runs at a time, in every run. */
  lemma OrderedModeRunsOnePerName(clock: int, moves: seq<Move>)
    requires MovesLegal(Init(clock), moves)
    ensures OneRunningPerName(MovesExec(Init(clock), moves))
  {
    assert AllInv(Init(clock)) by { forall id ensures Inv(Init(clock), id) {} }
    MovesKeepOrder(Init(clock), moves);
  }

  /** A run in which two ordered gets of one name overlap between select and claim. */
  function SplitRun(name: string): seq<Action> {
    [] + [Put(Item(name, "", 10, 5, 0))] + [Put(Item(name, "", 0, 5, 1))]
    + [Select(7, 1, 0)] + [Tick(10)]
    + [Select(8, 0, 10)] + [TakeClaim(8, 300, 2)]
    + [TakeClaim(7, 300, 3)]
  }

  predicate AnyName(name: string) { true }

  function FirstRow(name: string): Row { Row(name, "", 10, true, None, 5, 0) }
  function SecondRow(name: string): Row { Row(name, "", 0, true, None, 5, 1) }

  /** Both rows have just been put; the first is not yet due. */
  function SplitStart(name: string): State {
    State(0, map[0 := FirstRow(name), 1 := SecondRow(name)], 2, {0, 1}, map[], map[])
  }

  /** Worker 7 has selected row 1, and row 0 has fallen due. */
  function SplitMiddle(name: string): State {
    SplitStart(name).(clock := 10, snaps := map[7 := Snapshot(1, SecondRow(name), 0)])
  }

  /** Worker 8 has selected and claimed row 0; worker 7's snapshot of row 1 is untouched. */
  function SplitLate(name: string): State {
    SplitMiddle(name).(
      table := map[0 := ClaimedRow(FirstRow(name), 10, 300, 2), 1 := SecondRow(name)],
      minted := {0, 1, 2}, leases := map[2 := Lease(8, 0, 310)])
  }

  lemma ExecTwice(s: State, run: seq<Action>, a: Action, b: Action, mid: State, end: State)
    requires Legal(s, run) && Exec(s, run) == mid
    requires Enabled(mid, a) && Enabled(Next(mid, a), b) && Next(Next(mid, a), b) == end
    ensures Legal(s, run + [a] + [b]) && Exec(s, run + [a] + [b]) == end
  {
    ExecSnoc(s, run, a);
    ExecSnoc(s, run + [a], b);
  }

  lemma SplitPuts(name: string)
    ensures var run := [] + [Put(Item(name, "", 10, 5, 0))] + [Put(Item(name, "", 0, 5, 1))];
            Legal(Init(0), run) && Exec(Init(0), run) == SplitStart(name)
  {
    var a, b := Put(Item(name, "", 10, 5, 0)), Put(Item(name, "", 0, 5, 1));
    var end := Next(Next(Init(0), a), b);
    assert end.table == SplitStart(name).table;
    ExecTwice(Init(0), [], a, b, Init(0), SplitStart(name));
  }

  lemma SplitSelects(name: string)
    ensures var s, a, b := SplitStart(name), Select(7, 1, 0), Tick(10);
            Enabled(s, a) && Enabled(Next(s, a), b) && Next(Next(s, a), b) == SplitMiddle(name)
    ensures OrderedPick(SplitStart(name).table, AnyName, 0, 1)
  {}

  lemma SplitOvertakes(name: string)
    ensures var s, a, b := SplitMiddle(name), Select(8, 0, 10), TakeClaim(8, 300, 2);
            Enabled(s, a) && Enabled(Next(s, a), b) && Next(Next(s, a), b) == SplitLate(name)
    ensures OrderedPick(SplitMiddle(name).table, AnyName, 10, 0)
  {
    var s5 := Next(SplitMiddle(name), Select(8, 0, 10));
    assert s5.snaps[8] == Snapshot(0, FirstRow(name), 10);
    var s6 := Next(s5, TakeClaim(8, 300, 2));
    assert s6.table == SplitLate(name).table && s6.snaps == SplitLate(name).snaps;
  }

  lemma SplitEnd(name: string)
    ensures Enabled(SplitLate(name), TakeClaim(7, 300, 3))
    ensures !OneRunningPerName(Next(SplitLate(name), TakeClaim(7, 300, 3)))
  {
    var s := Next(SplitLate(name), TakeClaim(7, 300, 3));
    assert Running(s.table[0], s.clock) && Running(s.table[1], s.clock);
  }

  /**
    Splitting select from claim breaks ordered mode, for every name: both selects of SplitRun are ordered picks
    at the moment they are made, and both rows end up running.
   */
  lemma SplitOrderedModeFails(name: string)
    ensures OrderedPick(SplitStart(name).table, AnyName, 0, 1) && OrderedPick(SplitMiddle(name).table, AnyName, 10, 0)
    ensures Legal(Init(0), SplitRun(name)[..2]) && Exec(Init(0), SplitRun(name)[..2]) == SplitStart(name)
    ensures Legal(Init(0), SplitRun(name)[..4]) && Exec(Init(0), SplitRun(name)[..4]) == SplitMiddle(name)
    ensures Legal(Init(0), SplitRun(name)) && !OneRunningPerName(Exec(Init(0), SplitRun(name)))
  {
    var puts := [] + [Put(Item(name, "", 10, 5, 0))] + [Put(Item(name, "", 0, 5, 1))];
    var selected := puts + [Select(7, 1, 0)] + [Tick(10)];
    SplitPuts(name);
    SplitSelects(name);
    ExecTwice(Init(0), puts, Select(7, 1, 0), Tick(10), SplitStart(name), SplitMiddle(name));
    SplitOvertakes(name);
    ExecTwice(Init(0), selected, Select(8, 0, 10), TakeClaim(8, 300, 2), SplitMiddle(name), SplitLate(name));
    SplitEnd(name);
    ExecSnoc(Init(0), selected + [Select(8, 0, 10)] + [TakeClaim(8, 300, 2)], TakeClaim(7, 300, 3));
    assert SplitRun(name)[..2] == puts && SplitRun(name)[..4] == selected;
  }
}
