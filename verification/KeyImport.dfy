/** The service key table and the checks of boot.py's import of an operator-mounted key. */
module ServiceKeys {
  import opened Prelude

  const OPERATOR_MANAGED: string := "quay-operator-readonly"

  /** `n` and `e` are compared as dict.get returns them; a key without them has None for both. */
  datatype Jwk = Jwk(n: Option<string>, e: Option<string>, rest: string)

  datatype Approval = SuperUserApproval | AutomaticApproval

  datatype CreationError = ServiceNameInvalid | IntegrityError
  datatype ApprovalError = ServiceKeyDoesNotExist | ServiceKeyAlreadyApproved

  datatype Row = Row(
    name: string,
    kid: string,
    service: string,
    jwk: Jwk,
    createdBy: Option<string>,
    expiration: Option<int>,
    approval: Option<Approval>)

  type Table = map<nat, Row>

  /** What one pod mounts and is configured with. */
  datatype Mount = Mount(kid: string, jwk: Jwk, service: string, serviceNameValid: bool)

  predicate JwkMatches(a: Jwk, b: Jwk) { a.n == b.n && a.e == b.e }

  /** _validate_existing_key raises unless this holds. */
  predicate Validates(row: Row, m: Mount) {
    row.service == m.service && JwkMatches(row.jwk, m.jwk) && row.createdBy == Some(OPERATOR_MANAGED)
  }

  predicate HasKid(t: Table, id: nat, kid: string) { id in t && t[id].kid == kid }

  predicate KidTaken(t: Table, kid: string) { exists id <- t.Keys :: HasKid(t, id, kid) }

  function NewRow(m: Mount, expiration: int): Row {
    Row("operator-managed-readonly", m.kid, m.service, m.jwk, Some(OPERATOR_MANAGED), Some(expiration), None)
  }

  function ApprovedRow(row: Row, approval: Approval): Row {
    if row.approval.Some? then row else row.(approval := Some(approval))
  }

  /** _gc_expired: the stale keys of one service are deleted; which are stale depends on dates and configuration. */
  function Collected(t: Table, service: string, stale: Row -> bool): Table {
    map id | id in t && !(t[id].service == service && stale(t[id])) :: t[id]
  }

  ghost predicate UniqueKids(t: Table) {
    forall i, j | i in t && j in t && t[i].kid == t[j].kid :: i == j
  }

  lemma OneRowPerKid(t: Table, i: nat, j: nat, kid: string)
    requires UniqueKids(t) && HasKid(t, i, kid) && HasKid(t, j, kid)
    ensures i == j
  {}

  /** There is a row with the pod's kid, and it is the pod's own. */
  ghost predicate RowMatches(t: Table, m: Mount) {
    KidTaken(t, m.kid) && forall id <- t.Keys :: HasKid(t, id, m.kid) ==> Validates(t[id], m)
  }

  /** The id of a row with this kid, as select().get() finds it. */
  ghost function RowOf(t: Table, kid: string): (id: nat)
    requires KidTaken(t, kid)
    ensures HasKid(t, id, kid)
  {
    var id :| id in t && HasKid(t, id, kid);
    id
  }

  /** The table held by one database, when no other pod interferes. */
  class KeyStore {
    var rows: Table
    var nextId: nat

    ghost predicate Valid() reads this {
      UniqueKids(rows) && forall i <- rows.Keys :: i < nextId
    }

    constructor ()
      ensures Valid() && rows == map[]
    {
      rows, nextId := map[], 0;
    }

    method Approve(kid: string, approval: Approval) returns (r: Result<(), ApprovalError>, ghost id: nat)
      requires Valid()
      modifies this`rows
      ensures Valid()
      ensures r == Err(ServiceKeyDoesNotExist) <==> !KidTaken(old(rows), kid)
      ensures KidTaken(old(rows), kid) ==>
                && HasKid(old(rows), id, kid)
                && (r == Err(ServiceKeyAlreadyApproved) <==> old(rows)[id].approval.Some?)
                && (r.Ok? <==> old(rows)[id].approval.None?)
      ensures r.Err? ==> rows == old(rows)
      ensures r.Ok? ==> rows == old(rows)[id := old(rows)[id].(approval := Some(approval))]
    {
      id := 0;
      if !KidTaken(rows, kid) { return Err(ServiceKeyDoesNotExist), id; }
      var found :| found in rows && HasKid(rows, found, kid);
      id := found;
      if rows[found].approval.Some? { return Err(ServiceKeyAlreadyApproved), id; }
      rows := rows[found := rows[found].(approval := Some(approval))];
      r := Ok(());
    }

    /** create_service_key: stale keys of the service are collected, then the row is inserted unless its kid is taken. */
    method CreateKey(m: Mount, expiration: int, stale: Row -> bool) returns (r: Result<(), CreationError>, ghost id: nat)
      requires Valid()
      modifies this
      ensures Valid()
      ensures r == Err(ServiceNameInvalid) <==> !m.serviceNameValid
      ensures !m.serviceNameValid ==> rows == old(rows)
      ensures m.serviceNameValid ==>
                var kept := Collected(old(rows), m.service, stale);
                && (r.Ok? <==> !KidTaken(kept, m.kid))
                && (r.Err? ==> rows == kept)
                && (r.Ok? ==> id !in old(rows) && rows == kept[id := NewRow(m, expiration)])
      ensures r.Ok? ==>
                && id in rows && rows[id] == Row("operator-managed-readonly", m.kid, m.service, m.jwk,
                                                 Some("quay-operator-readonly"), Some(expiration), None)
                && forall i <- old(rows).Keys ::
                     if old(rows)[i].service == m.service && stale(old(rows)[i]) then i !in rows
                     else i in rows && rows[i] == old(rows)[i]
    {
      id := nextId;
      if !m.serviceNameValid { return Err(ServiceNameInvalid), id; }
      rows := Collected(rows, m.service, stale);
      if KidTaken(rows, m.kid) { return Err(IntegrityError), id; }
      assert forall i <- rows.Keys :: !HasKid(rows, i, m.kid);
      rows, nextId := rows[nextId := NewRow(m, expiration)], nextId + 1;
      r := Ok(());
    }

    /** The last step of the import: approve the key unless it is approved. */
    method AutoApprove(kid: string, ghost id: nat)
      requires Valid() && HasKid(rows, id, kid)
      modifies this`rows
      ensures Valid()
      ensures rows == old(rows)[id := ApprovedRow(old(rows)[id], AutomaticApproval)]
    {
      var again :| again in rows && HasKid(rows, again, kid);
      OneRowPerKid(rows, again, id, kid);
      if rows[again].approval.None? {
        var approved, at := Approve(kid, AutomaticApproval);
        OneRowPerKid(old(rows), at, id, kid);
      }
    }

    /**
      The whole import, uninterrupted: it returns the kid exactly when the row is absent and the service name
      is valid, or present and the pod's own; afterwards the row is the pod's, refreshed and approved, and nothing
      else has changed but that creating it collected the stale keys of its service.
     */
    method Import(m: Mount, expiration: int, stale: Row -> bool) returns (r: Result<string, string>, ghost id: nat)
      requires Valid()
      modifies this
      ensures Valid()
      ensures r.Ok? <==> if KidTaken(old(rows), m.kid) then RowMatches(old(rows), m) else m.serviceNameValid
      ensures r.Err? ==> rows == old(rows)
      ensures KidTaken(old(rows), m.kid) ==>
                (r.Ok? <==> exists i <- old(rows).Keys ::
                              && old(rows)[i].kid == m.kid && old(rows)[i].service == m.service
                              && old(rows)[i].jwk.n == m.jwk.n && old(rows)[i].jwk.e == m.jwk.e
                              && old(rows)[i].createdBy == Some("quay-operator-readonly"))
      ensures r.Ok? ==>
                && r.value == m.kid && id in rows
                && rows[id].kid == m.kid && rows[id].service == m.service
                && rows[id].jwk.n == m.jwk.n && rows[id].jwk.e == m.jwk.e
                && rows[id].createdBy == Some("quay-operator-readonly")
                && rows[id].expiration == Some(expiration) && rows[id].approval.Some?
      ensures r.Ok? && KidTaken(old(rows), m.kid) ==>
                && id in old(rows)
                && rows == old(rows)[id := ApprovedRow(old(rows)[id].(expiration := Some(expiration)), AutomaticApproval)]
      ensures r.Ok? && !KidTaken(old(rows), m.kid) ==>
                && id !in old(rows)
                && rows == Collected(old(rows), m.service, stale)[id := ApprovedRow(NewRow(m, expiration), AutomaticApproval)]
    {
      if KidTaken(rows, m.kid) {
        var found :| found in rows && HasKid(rows, found, m.kid);
        id := found;
        if !Validates(rows[found], m) {
          return Err("existing key does not match the mounted key"), id;
        }
        assert forall i <- rows.Keys :: HasKid(rows, i, m.kid) ==> i == found;
        rows := rows[found := rows[found].(expiration := Some(expiration))];
      } else {
        assert forall i <- rows.Keys :: !HasKid(rows, i, m.kid);
        var created;
        created, id := CreateKey(m, expiration, stale);
        if created.Err? {
          return Err("invalid service name"), id;
        }
      }
      AutoApprove(m.kid, id);
      r := Ok(m.kid);
    }
  }
}

/** Any number of pods importing at once, one database statement at a time. */
module KeyImport {
  import opened Prelude
  import opened ServiceKeys

  /** Where a pod is: each phase names the database statement that comes next. */
  datatype Phase =
    | LookUp        // select by kid
    | Create        // insert
    | ReRead        // the insert met an IntegrityError: select again
    | Refresh       // the row validated: update its expiration
    | CheckApproval // select again
    | Approve       // the approving transaction
    | Returned
    | Raised

  datatype Pod = Pod(mount: Mount, phase: Phase)

  datatype State = State(rows: Table, nextId: nat, pods: map<nat, Pod>)

  /** A pod's next statement, or somebody else approving a key or creating another one. */
  datatype Action =
    | Advance(pod: nat, now: int)
    | ApproveElsewhere(id: nat)
    | CreateElsewhere(row: Row)

  predicate Enabled(s: State, a: Action) {
    match a
    case Advance(pod, _) => pod in s.pods && !s.pods[pod].phase.Returned? && !s.pods[pod].phase.Raised?
    case ApproveElsewhere(id) => id in s.rows
    case CreateElsewhere(row) => !KidTaken(s.rows, row.kid)
  }

  /** The rows after an update that sets fields of the rows with one kid. */
  function Refreshed(t: Table, kid: string, expiration: int): Table {
    map id | id in t :: if t[id].kid == kid then t[id].(expiration := Some(expiration)) else t[id]
  }

  function Approved(t: Table, id: nat, approval: Approval): Table
    requires id in t
  {
    t[id := ApprovedRow(t[id], approval)]
  }

  ghost function AfterSelect(s: State, m: Mount): Phase
    requires KidTaken(s.rows, m.kid)
  {
    if Validates(s.rows[RowOf(s.rows, m.kid)], m) then Refresh else Raised
  }

  ghost function StepPod(s: State, m: Mount, phase: Phase, now: int): (Table, nat, Phase) {
    var taken := KidTaken(s.rows, m.kid);
    match phase
    case LookUp => (s.rows, s.nextId, if taken then AfterSelect(s, m) else Create)
    case Create =>
      if !m.serviceNameValid then (s.rows, s.nextId, Raised)
      else if taken then (s.rows, s.nextId, ReRead)
      else (s.rows[s.nextId := NewRow(m, now)], s.nextId + 1, CheckApproval)
    case ReRead => (s.rows, s.nextId, if taken then AfterSelect(s, m) else Raised)
    case Refresh => (Refreshed(s.rows, m.kid, now), s.nextId, CheckApproval)
    case CheckApproval =>
      (s.rows, s.nextId,
       if !taken then Raised
       else if s.rows[RowOf(s.rows, m.kid)].approval.None? then Approve else Returned)
    case Approve =>
      if !taken then (s.rows, s.nextId, Raised)
      else (Approved(s.rows, RowOf(s.rows, m.kid), AutomaticApproval), s.nextId, Returned)
    case Returned => (s.rows, s.nextId, phase)
    case Raised => (s.rows, s.nextId, phase)
  }

  ghost function Next(s: State, a: Action): State
    requires Enabled(s, a)
  {
    match a
    case Advance(pod, now) =>
      var p := s.pods[pod];
      var (rows, nextId, phase) := StepPod(s, p.mount, p.phase, now);
      State(rows, nextId, s.pods[pod := p.(phase := phase)])
    case ApproveElsewhere(id) => s.(rows := Approved(s.rows, id, SuperUserApproval))
    case CreateElsewhere(row) => s.(rows := s.rows[s.nextId := row], nextId := s.nextId + 1)
  }

  ghost predicate Initial(s: State) {
    && UniqueKids(s.rows) && (forall i <- s.rows.Keys :: i < s.nextId)
    && forall p <- s.pods.Keys :: s.pods[p].phase.LookUp?
  }

  /** The states of a run, one more than its actions. */
  ghost predicate IsRun(states: seq<State>, run: seq<Action>) {
    && |states| == |run| + 1
    && Initial(states[0])
    && forall i | 0 <= i < |run| :: Enabled(states[i], run[i]) && states[i + 1] == Next(states[i], run[i])
  }

  // ---------------------------------------------------------------- the invariant

  ghost predicate RowApproved(t: Table, kid: string) {
    forall id <- t.Keys :: HasKid(t, id, kid) ==> t[id].approval.Some?
  }

  /** The key has been given an expiration. */
  ghost predicate RowDated(t: Table, kid: string) {
    forall id <- t.Keys :: HasKid(t, id, kid) ==> t[id].expiration.Some?
  }

  /** What a pod's phase says about the table. */
  ghost predicate PhaseHonest(t: Table, p: Pod) {
    match p.phase
    case LookUp => true
    case Create => true
    case ReRead => KidTaken(t, p.mount.kid)
    case Refresh => RowMatches(t, p.mount)
    case CheckApproval => RowMatches(t, p.mount) && RowDated(t, p.mount.kid)
    case Approve => RowMatches(t, p.mount) && RowDated(t, p.mount.kid)
    case Returned => RowMatches(t, p.mount) && RowDated(t, p.mount.kid) && RowApproved(t, p.mount.kid)
    case Raised => !p.mount.serviceNameValid || (KidTaken(t, p.mount.kid) && !RowMatches(t, p.mount))
  }

  ghost predicate Inv(s: State) {
    && UniqueKids(s.rows) && (forall i <- s.rows.Keys :: i < s.nextId)
    && forall p <- s.pods.Keys :: PhaseHonest(s.rows, s.pods[p])
  }

  /** Rows are never removed; of their fields only the expiration moves, and the approval once, from none. */
  ghost predicate Grown(t: Table, t': Table) {
    forall i <- t.Keys ::
      && i in t'
      && t'[i] == t[i].(expiration := t'[i].expiration, approval := t'[i].approval)
      && (t[i].approval.Some? ==> t'[i].approval == t[i].approval)
      && (t[i].expiration.Some? ==> t'[i].expiration.Some?)
  }

  lemma GrownKeepsKid(t: Table, t': Table, kid: string)
    requires Grown(t, t') && UniqueKids(t') && KidTaken(t, kid)
    ensures KidTaken(t', kid)
    ensures forall id <- t'.Keys :: HasKid(t', id, kid) ==> HasKid(t, id, kid)
  {}

  /** What a phase says stays true while the table grows. */
  lemma GrownKeepsPhase(t: Table, t': Table, p: Pod)
    requires Grown(t, t') && UniqueKids(t') && PhaseHonest(t, p)
    ensures PhaseHonest(t', p)
  {}

  lemma OneRowDecides(t: Table, m: Mount)
    requires UniqueKids(t) && KidTaken(t, m.kid)
    ensures RowMatches(t, m) <==> Validates(t[RowOf(t, m.kid)], m)
    ensures RowApproved(t, m.kid) <==> t[RowOf(t, m.kid)].approval.Some?
  {}

  /** The table part of a pod's step. */
  lemma StepPodTable(s: State, m: Mount, phase: Phase, now: int)
    requires Inv(s)
    ensures var (rows, nextId, _) := StepPod(s, m, phase, now);
            UniqueKids(rows) && Grown(s.rows, rows) && forall i <- rows.Keys :: i < nextId
  {
    if phase.Create? && !KidTaken(s.rows, m.kid) {
      forall i | i in s.rows ensures s.rows[i].kid != m.kid { assert !HasKid(s.rows, i, m.kid); }
    }
  }

  lemma StepPodPhase(s: State, m: Mount, phase: Phase, now: int)
    requires Inv(s) && PhaseHonest(s.rows, Pod(m, phase))
    ensures var (rows, _, phase') := StepPod(s, m, phase, now); PhaseHonest(rows, Pod(m, phase'))
  {
    var (rows, nextId, phase') := StepPod(s, m, phase, now);
    StepPodTable(s, m, phase, now);
    if KidTaken(s.rows, m.kid) {
      OneRowDecides(s.rows, m);
      GrownKeepsKid(s.rows, rows, m.kid);
      OneRowDecides(rows, m);
      forall id | id in s.rows && HasKid(s.rows, id, m.kid) ensures HasKid(rows, id, m.kid) {}
      if phase.Refresh? { GrownKeepsPhase(s.rows, rows, Pod(m, Refresh)); }
      if phase.Approve? { GrownKeepsPhase(s.rows, rows, Pod(m, CheckApproval)); }
    } else if phase.Create? && m.serviceNameValid {
      assert HasKid(rows, s.nextId, m.kid);
      forall i | i in s.rows ensures !HasKid(rows, i, m.kid) { assert !HasKid(s.rows, i, m.kid); }
    }
  }

  lemma StepKeepsInv(s: State, a: Action)
    requires Inv(s) && Enabled(s, a)
    ensures Inv(Next(s, a)) && Grown(s.rows, Next(s, a).rows)
  {
    var s' := Next(s, a);
    match a
    case Advance(pod, now) =>
      StepPodTable(s, s.pods[pod].mount, s.pods[pod].phase, now);
      StepPodPhase(s, s.pods[pod].mount, s.pods[pod].phase, now);
      forall p | p in s'.pods ensures PhaseHonest(s'.rows, s'.pods[p]) {
        if p != pod { GrownKeepsPhase(s.rows, s'.rows, s.pods[p]); }
      }
    case ApproveElsewhere(_) =>
      forall p | p in s'.pods ensures PhaseHonest(s'.rows, s'.pods[p]) { GrownKeepsPhase(s.rows, s'.rows, s.pods[p]); }
    case CreateElsewhere(row) =>
      forall i | i in s.rows ensures s.rows[i].kid != row.kid { assert !HasKid(s.rows, i, row.kid); }
      forall p | p in s'.pods ensures PhaseHonest(s'.rows, s'.pods[p]) { GrownKeepsPhase(s.rows, s'.rows, s.pods[p]); }
  }

  lemma {:induction false} RunKeepsInv(states: seq<State>, run: seq<Action>, i: nat, j: nat)
    requires IsRun(states, run) && i <= j < |states|
    ensures Inv(states[i]) && Inv(states[j]) && Grown(states[i].rows, states[j].rows)
    ensures forall p :: p in states[i].pods ==> p in states[j].pods && states[j].pods[p].mount == states[i].pods[p].mount
    decreases j
  {
    if j > 0 {
      RunKeepsInv(states, run, if i < j then i else j - 1, j - 1);
      StepKeepsInv(states[j - 1], run[j - 1]);
    }
  }

  // ---------------------------------------------------------------- the promises

  /**
    In every interleaving and at every moment: one row per kid; a row once present stays, with its JWK,
    service and created_by as they were; and a pod that has returned finds, from then on, the row of its
    kid matching its mounted key and approved.
   */
  lemma ImportConverges(states: seq<State>, run: seq<Action>, i: nat, j: nat, pod: nat)
    requires IsRun(states, run) && i <= j < |states|
    ensures UniqueKids(states[j].rows) && Grown(states[i].rows, states[j].rows)
    ensures pod in states[i].pods && states[i].pods[pod].phase.Returned? ==>
              var m := states[i].pods[pod].mount;
              RowMatches(states[j].rows, m) && RowApproved(states[j].rows, m.kid)
  {
    RunKeepsInv(states, run, i, j);
    if pod in states[i].pods && states[i].pods[pod].phase.Returned? {
      GrownKeepsPhase(states[i].rows, states[j].rows, states[i].pods[pod]);
    }
  }

  /**
    A pod with a valid service name that has finished returned if and only if the row of its kid is
    its own: losing the race to create the row is never an error.
   */
  lemma FinishedPodsAgreeWithRow(states: seq<State>, run: seq<Action>, i: nat, pod: nat)
    requires IsRun(states, run) && i < |states| && pod in states[i].pods
    requires states[i].pods[pod].mount.serviceNameValid
    requires states[i].pods[pod].phase.Returned? || states[i].pods[pod].phase.Raised?
    ensures KidTaken(states[i].rows, states[i].pods[pod].mount.kid)
    ensures states[i].pods[pod].phase.Returned? <==> RowMatches(states[i].rows, states[i].pods[pod].mount)
  {
    RunKeepsInv(states, run, i, i);
  }

  /**
    The outcome of any race, in the columns of the row: from the moment a pod has returned there is exactly one row with its
    kid, with its service, its public key and the operator as creator, approved and dated; and a pod with a valid service name
    that failed met a row with its kid that differs in one of these.
   */
  lemma RaceOutcome(states: seq<State>, run: seq<Action>, i: nat, j: nat, pod: nat)
    requires IsRun(states, run) && i <= j < |states| && pod in states[i].pods
    ensures var m, rows := states[i].pods[pod].mount, states[j].rows;
            && (states[i].pods[pod].phase.Returned? ==>
                  exists id <- rows.Keys ::
                    && rows[id].kid == m.kid && rows[id].service == m.service
                    && rows[id].jwk.n == m.jwk.n && rows[id].jwk.e == m.jwk.e
                    && rows[id].createdBy == Some("quay-operator-readonly")
                    && rows[id].approval.Some? && rows[id].expiration.Some?)
            && (states[i].pods[pod].phase.Raised? && m.serviceNameValid ==>
                  exists id <- rows.Keys ::
                    && rows[id].kid == m.kid
                    && (rows[id].service != m.service || rows[id].jwk.n != m.jwk.n || rows[id].jwk.e != m.jwk.e
                        || rows[id].createdBy != Some("quay-operator-readonly")))
            && (forall k, l | k in rows && l in rows && rows[k].kid == rows[l].kid :: k == l)
  {
    RunKeepsInv(states, run, i, j);
    var m, rows := states[i].pods[pod].mount, states[j].rows;
    GrownKeepsPhase(states[i].rows, rows, states[i].pods[pod]);
    if KidTaken(rows, m.kid) {
      OneRowDecides(rows, m);
      assert HasKid(rows, RowOf(rows, m.kid), m.kid);
    }
  }

  /**
    What one statement writes, in the columns: an insert the whole row; a refresh the expiration of the rows with
    the pod's kid; an approval the approval; nothing else, ever.
   */
  lemma StatementWrites(s: State, pod: nat, now: int, id: nat)
    requires Inv(s) && Enabled(s, Advance(pod, now))
    ensures var m, phase, rows := s.pods[pod].mount, s.pods[pod].phase, Next(s, Advance(pod, now)).rows;
            && (id in s.rows ==> id in rows)
            && (id in rows && id !in s.rows ==>
                  phase.Create? && rows[id] == Row("operator-managed-readonly", m.kid, m.service, m.jwk,
                                                   Some("quay-operator-readonly"), Some(now), None))
            && (id in s.rows ==>
                  rows[id] == s.rows[id].(
                    expiration := if phase.Refresh? && s.rows[id].kid == m.kid then Some(now) else s.rows[id].expiration,
                    approval := if phase.Approve? && s.rows[id].kid == m.kid && s.rows[id].approval.None?
                                then Some(AutomaticApproval) else s.rows[id].approval))
  {
    var m := s.pods[pod].mount;
    if KidTaken(s.rows, m.kid) && id in s.rows && s.rows[id].kid == m.kid {
      OneRowPerKid(s.rows, RowOf(s.rows, m.kid), id, m.kid);
    }
  }

  /** Every pod with this kid mounts this key, and the kid's row, if there is one, is theirs. */
  ghost predicate OwnKey(s: State, m: Mount) {
    && (forall p <- s.pods.Keys :: s.pods[p].mount.kid == m.kid ==> s.pods[p].mount == m)
    && (KidTaken(s.rows, m.kid) ==> RowMatches(s.rows, m))
  }

  /** A row that a step adds under this kid is one that a pod creates from its own key. */
  lemma NewRowIsOwn(s: State, a: Action, m: Mount, id: nat)
    requires Inv(s) && Enabled(s, a) && OwnKey(s, m) && !KidTaken(s.rows, m.kid)
    requires a.CreateElsewhere? ==> a.row.kid != m.kid
    requires HasKid(Next(s, a).rows, id, m.kid)
    ensures Validates(Next(s, a).rows[id], m)
  {
    assert id in s.rows ==> !HasKid(s.rows, id, m.kid);
  }

  lemma StepKeepsOwnKey(s: State, a: Action, m: Mount)
    requires Inv(s) && Enabled(s, a) && OwnKey(s, m) && (a.CreateElsewhere? ==> a.row.kid != m.kid)
    ensures OwnKey(Next(s, a), m)
  {
    var s' := Next(s, a);
    StepKeepsInv(s, a);
    if KidTaken(s.rows, m.kid) {
      GrownKeepsPhase(s.rows, s'.rows, Pod(m, Refresh));
    } else {
      forall id | id in s'.rows && HasKid(s'.rows, id, m.kid) ensures Validates(s'.rows[id], m) {
        NewRowIsOwn(s, a, m, id);
      }
    }
  }

  lemma {:induction false} RunKeepsOwnKey(states: seq<State>, run: seq<Action>, m: Mount, i: nat)
    requires IsRun(states, run) && i < |states| && OwnKey(states[0], m)
    requires forall k | 0 <= k < |run| :: run[k].CreateElsewhere? ==> run[k].row.kid != m.kid
    ensures OwnKey(states[i], m)
  {
    if i > 0 {
      RunKeepsOwnKey(states, run, m, i - 1);
      RunKeepsInv(states, run, i - 1, i - 1);
      StepKeepsOwnKey(states[i - 1], run[i - 1], m);
    }
  }

  /**
    Pods that mount the same key never fail, whoever creates the row first and whatever pods with other keys
    do meanwhile: it is enough that the row, if it was there before, was the operator's, and that nobody
    else creates a foreign one.
   */
  lemma SameMountNeverFails(states: seq<State>, run: seq<Action>, m: Mount, i: nat, pod: nat)
    requires IsRun(states, run) && i < |states| && OwnKey(states[0], m) && m.serviceNameValid
    requires pod in states[i].pods && states[i].pods[pod].mount.kid == m.kid
    requires forall k | 0 <= k < |run| :: run[k].CreateElsewhere? ==> run[k].row.kid != m.kid
    ensures !states[i].pods[pod].phase.Raised?
  {
    RunKeepsInv(states, run, i, i);
    RunKeepsOwnKey(states, run, m, i);
  }
}
