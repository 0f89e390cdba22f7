/** The Redis commands that buildman/orchestrator.py uses, on one database.  Times are in seconds. */
module Redis {
  import opened Prelude

  /** A key as given, and the two keys slash_join derives from it. */
  datatype RedisKey = Plain(name: string) | Expiring(name: string) | Expired(name: string)

  datatype Entry = Entry(value: string, deadline: Option<int>)

  /** A stored entry whose deadline has passed is no longer visible. */
  type Store = map<RedisKey, Entry>

  predicate Exists(store: Store, now: int, key: RedisKey) {
    key in store && (store[key].deadline.None? || store[key].deadline.value > now)
  }

  function Get(store: Store, now: int, key: RedisKey): Option<string> {
    if Exists(store, now, key) then Some(store[key].value) else None
  }

  /** SET key value [XX] [EX seconds]; a SET without EX drops any earlier deadline. */
  function Set(store: Store, now: int, key: RedisKey, value: string, xx: bool, ex: Option<int>): Store {
    if xx && !Exists(store, now, key) then store
    else store[key := Entry(value, if ex.Some? then Some(now + ex.value) else None)]
  }

  function Expire(store: Store, now: int, key: RedisKey, seconds: int): Store {
    if Exists(store, now, key) then store[key := store[key].(deadline := Some(now + seconds))] else store
  }
}

/** RedisOrchestrator: what each call does to the store and which events it publishes. */
module Orchestrators {
  import opened Prelude
  import opened Redis

  const ONE_DAY: int := 60 * 60 * 24

  datatype Event = CREATE | SET | DELETE | EXPIRE
  datatype KeyChange = KeyChange(event: Event, key: string, value: string)

  datatype Error = KeyError

  /** The store after set_key, when it raises nothing. */
  function StoreAfterSet(store: Store, now: int, key: string, value: string, overwrite: bool, expiration: Option<int>)
    : Store
  {
    var stored := Set(store, now, Plain(key), value, overwrite, None);
    if expiration.None? then stored
    else
      var expiring := Expire(stored, now, Plain(key), expiration.value + ONE_DAY);
      var shadowed := Set(expiring, now, Expiring(key), "", Exists(expiring, now, Expiring(key)), expiration);
      shadowed - {Expired(key)}
  }

  predicate SetRefused(store: Store, now: int, key: string, overwrite: bool) {
    Exists(store, now, Plain(key)) && !overwrite
  }

  function SetEvent(store: Store, now: int, key: string, value: string): KeyChange {
    KeyChange(if Exists(store, now, Plain(key)) then SET else CREATE, key, value)
  }

  function StoreAfterDelete(store: Store, key: string): Store {
    store - {Plain(key), Expiring(key), Expired(key)}
  }

  /** The handler of an expiry event; an empty value stays where it is. */
  function StoreAfterHandler(store: Store, now: int, key: string): Store {
    match Get(store, now, Plain(key))
    case Some(v) =>
      if v != "" then Set(store, now, Expired(key), v, false, None) - {Plain(key)} else store
    case None => store
  }

  function ExpiryEvents(store: Store, now: int, key: string): seq<KeyChange> {
    match Get(store, now, Plain(key))
    case Some(v) => [KeyChange(EXPIRE, key, v)]
    case None => []
  }

  /** A set leaves the keys of other names alone. */
  lemma StoreAfterSetElsewhere(store: Store, now: int, k: string, value: string, overwrite: bool, expiration: Option<int>,
                               other: RedisKey)
    requires other.name != k
    ensures var store' := StoreAfterSet(store, now, k, value, overwrite, expiration);
            (other in store' <==> other in store) && (other in store ==> store'[other] == store[other])
  {}

  /** What an accepted set leaves under its key, the shadow and the marker; overwriting a missing key stores nothing. */
  lemma StoreAfterSetHere(store: Store, now: int, key: string, value: string, overwrite: bool, expiration: Option<int>)
    requires !(Exists(store, now, Plain(key)) && !overwrite)
    ensures var store' := StoreAfterSet(store, now, key, value, overwrite, expiration);
            && (if overwrite && !Exists(store, now, Plain(key))
                then (Plain(key) in store' <==> Plain(key) in store)
                     && (Plain(key) in store ==> store'[Plain(key)] == store[Plain(key)])
                else Plain(key) in store' && store'[Plain(key)]
                     == Entry(value, if expiration.Some? then Some(now + (expiration.value + 86400)) else None))
            && (expiration.Some? ==>
                  && Expiring(key) in store' && store'[Expiring(key)] == Entry("", Some(now + expiration.value))
                  && Expired(key) !in store')
            && (expiration.None? ==>
                  && (Expiring(key) in store' <==> Expiring(key) in store)
                  && (Expiring(key) in store ==> store'[Expiring(key)] == store[Expiring(key)])
                  && (Expired(key) in store' <==> Expired(key) in store)
                  && (Expired(key) in store ==> store'[Expired(key)] == store[Expired(key)]))
  {}

  class RedisOrchestrator {
    var store: Store
    var events: seq<KeyChange>

    constructor ()
      ensures store == map[] && events == []
    {
      store, events := map[], [];
    }

    method SetKey(key: string, value: string, overwrite: bool, expiration: Option<int>, now: int)
      returns (r: Result<(), Error>)
      modifies this
      ensures r.Err? <==> SetRefused(old(store), now, key, overwrite)
      ensures r.Err? ==> store == old(store) && events == old(events)
      ensures r.Ok? ==> store == StoreAfterSet(old(store), now, key, value, overwrite, expiration)
      ensures r.Ok? && !(overwrite && !Exists(old(store), now, Plain(key))) ==>
                && Plain(key) in store && store[Plain(key)].value == value
                && store[Plain(key)].deadline
                   == if expiration.Some? then Some(now + (expiration.value + 86400)) else None
      ensures r.Ok? && expiration.Some? ==>
                && Expiring(key) in store && store[Expiring(key)] == Entry("", Some(now + expiration.value))
                && Expired(key) !in store
      ensures r.Ok? ==>
                events == old(events) + [KeyChange(if Exists(old(store), now, Plain(key)) then SET else CREATE, key, value)]
      ensures forall k: RedisKey | k.name != key ::
                (k in store <==> k in old(store)) && (k in store ==> store[k] == old(store)[k])
    {
      var alreadyExists := Exists(store, now, Plain(key));
      if alreadyExists && !overwrite {
        return Err(KeyError);
      }
      store := Set(store, now, Plain(key), value, overwrite, None);
      if expiration.Some? {
        store := Expire(store, now, Plain(key), expiration.value + ONE_DAY);
        var overwriteExpiringKey := Exists(store, now, Expiring(key));
        store := Set(store, now, Expiring(key), "", overwriteExpiringKey, expiration);
        store := store - {Expired(key)};
      }
      events := events + [KeyChange(if alreadyExists then SET else CREATE, key, value)];
      StoreAfterSetHere(old(store), now, key, value, overwrite, expiration);
      forall k: RedisKey | k.name != key
        ensures (k in store <==> k in old(store)) && (k in store ==> store[k] == old(store)[k])
      {
        StoreAfterSetElsewhere(old(store), now, key, value, overwrite, expiration, k);
      }
      r := Ok(());
    }

    method DeleteKey(key: string, now: int) returns (r: Result<(), Error>)
      modifies this
      ensures r.Err? <==> !Exists(old(store), now, Plain(key))
      ensures r.Err? ==> store == old(store) && events == old(events)
      ensures r.Ok? ==>
                && store == old(store) - {Plain(key), Expiring(key), Expired(key)}
                && events == old(events) + [KeyChange(DELETE, key, old(store)[Plain(key)].value)]
    {
      var value := Get(store, now, Plain(key));
      if value.None? {
        return Err(KeyError);
      }
      store := store - {Plain(key)};
      store := store - {Expiring(key)};
      store := store - {Expired(key)};
      events := events + [KeyChange(DELETE, key, value.value)];
      r := Ok(());
    }

    method Lock(key: string, expiration: int, now: int) returns (acquired: bool)
      modifies this
      ensures acquired <==> !Exists(old(store), now, Plain(key))
      ensures !acquired ==> store == old(store) && events == old(events)
      ensures acquired ==>
                && store == StoreAfterSet(old(store), now, key, "", false, Some(expiration))
                && Plain(key) in store && store[Plain(key)] == Entry("", Some(now + (expiration + 86400)))
                && Expiring(key) in store && store[Expiring(key)] == Entry("", Some(now + expiration))
                && events == old(events) + [KeyChange(CREATE, key, "")]
    {
      var r := SetKey(key, "", false, Some(expiration), now);
      acquired := r.Ok?;
    }

    /** `events` also records what is handed to the watchers' callbacks. */
    method ExpiringKeyHandler(key: string, now: int)
      modifies this
      ensures store == StoreAfterHandler(old(store), now, key)
      ensures !Exists(old(store), now, Plain(key)) ==> store == old(store) && events == old(events)
      ensures Exists(old(store), now, Plain(key)) ==>
                var v := old(store)[Plain(key)].value;
                && events == old(events) + [KeyChange(EXPIRE, key, v)]
                && store == if v == "" then old(store) else old(store)[Expired(key) := Entry(v, None)] - {Plain(key)}
    {
      var expiredValue := Get(store, now, Plain(key));
      if expiredValue.Some? && expiredValue.value != "" {
        store := Set(store, now, Expired(key), expiredValue.value, false, None);
        store := store - {Plain(key)};
      }
      if expiredValue.Some? {
        events := events + [KeyChange(EXPIRE, key, expiredValue.value)];
      }
    }
  }
}

/** Whole runs of set, delete, lock, expiry and the passing of time. */
module OrchestratorRuns {
  import opened Prelude
  import opened Redis
  import opened Orchestrators

  /** `inFlight` holds the expiry events, by key, that Redis has sent and the handler has not yet seen. */
  datatype State = State(now: int, store: Store, log: seq<KeyChange>, inFlight: multiset<string>)

  /**
    `Emit` is Redis dropping a shadow whose deadline has passed, and sending its event; `Handle` is the
    handler running on such an event, at any later time.
   */
  datatype Action =
    | Tick(elapsed: nat)
    | SetKey(key: string, value: string, overwrite: bool, expiration: Option<int>)
    | DeleteKey(key: string)
    | Lock(key: string, duration: int)
    | Emit(key: string)
    | Handle(key: string)

  /** The shadow's deadline has passed and Redis has not dropped it yet. */
  predicate Pending(s: State, key: string) {
    Expiring(key) in s.store && !Exists(s.store, s.now, Expiring(key))
  }

  /** Redis refuses expirations that are not positive. */
  predicate Enabled(s: State, a: Action) {
    match a
    case Tick(_) => true
    case SetKey(_, _, _, expiration) => expiration.Some? ==> expiration.value > 0
    case DeleteKey(_) => true
    case Lock(_, expiration) => expiration > 0
    case Emit(key) => Pending(s, key)
    case Handle(key) => key in s.inFlight
  }

  /** Touching a shadow whose deadline has passed makes Redis drop it and send its event. */
  function Touched(s: State, key: string): State {
    if Pending(s, key) then s.(store := s.store - {Expiring(key)}, inFlight := s.inFlight + multiset{key}) else s
  }

  function AfterSet(s: State, key: string, value: string, overwrite: bool, expiration: Option<int>): State {
    if SetRefused(s.store, s.now, key, overwrite) then s
    else
      var t := if expiration.Some? then Touched(s, key) else s;
      t.(store := StoreAfterSet(t.store, t.now, key, value, overwrite, expiration),
         log := t.log + [SetEvent(t.store, t.now, key, value)])
  }

  function AfterDelete(s: State, key: string): State {
    if !Exists(s.store, s.now, Plain(key)) then s
    else
      var t := Touched(s, key);
      t.(store := StoreAfterDelete(t.store, key), log := t.log + [KeyChange(DELETE, key, t.store[Plain(key)].value)])
  }

  function AfterHandler(s: State, key: string): State {
    s.(store := StoreAfterHandler(s.store, s.now, key), log := s.log + ExpiryEvents(s.store, s.now, key),
       inFlight := s.inFlight - multiset{key})
  }

  function Next(s: State, a: Action): State {
    match a
    case Tick(elapsed) => s.(now := s.now + elapsed)
    case SetKey(key, value, overwrite, expiration) => AfterSet(s, key, value, overwrite, expiration)
    case DeleteKey(key) => AfterDelete(s, key)
    case Lock(key, expiration) => AfterSet(s, key, "", false, Some(expiration))
    case Emit(key) => Touched(s, key)
    case Handle(key) => AfterHandler(s, key)
  }

  function Init(now: int): State { State(now, map[], [], multiset{}) }

  function Exec(s: State, run: seq<Action>): State {
    if run == [] then s else Next(Exec(s, run[..|run| - 1]), run[|run| - 1])
  }

  predicate Legal(s: State, run: seq<Action>) {
    run == [] || (Legal(s, run[..|run| - 1]) && Enabled(Exec(s, run[..|run| - 1]), run[|run| - 1]))
  }

  lemma ExecSnoc(s: State, run: seq<Action>, a: Action)
    requires Legal(s, run) && Enabled(Exec(s, run), a)
    ensures Legal(s, run + [a]) && Exec(s, run + [a]) == Next(Exec(s, run), a)
  {
    assert (run + [a])[..|run|] == run;
  }

  // ---------------------------------------------------------------- what a step does to a key

  /** lock() on this key would return True now. */
  predicate LockFree(s: State, key: string) { !Exists(s.store, s.now, Plain(key)) }

  /** Neither the key nor its shadow has changed, and no event of it was sent or handled. */
  predicate SameKey(s: State, s': State, key: string) {
    && s'.now == s.now && s'.inFlight[key] == s.inFlight[key]
    && (Plain(key) in s'.store <==> Plain(key) in s.store)
    && (Plain(key) in s.store ==> s'.store[Plain(key)] == s.store[Plain(key)])
    && (Expiring(key) in s'.store <==> Expiring(key) in s.store)
    && (Expiring(key) in s.store ==> s'.store[Expiring(key)] == s.store[Expiring(key)])
  }

  lemma SetElsewhere(s: State, k: string, value: string, overwrite: bool, expiration: Option<int>, key: string)
    requires k != key
    ensures SameKey(s, AfterSet(s, k, value, overwrite, expiration), key)
  {
    var t := if expiration.Some? then Touched(s, k) else s;
    assert SameKey(s, t, key);
    StoreAfterSetElsewhere(t.store, t.now, k, value, overwrite, expiration, Plain(key));
    StoreAfterSetElsewhere(t.store, t.now, k, value, overwrite, expiration, Expiring(key));
  }

  lemma DeleteElsewhere(s: State, k: string, key: string)
    requires k != key
    ensures SameKey(s, AfterDelete(s, k), key) && SameKey(s, Touched(s, k), key)
  {}

  lemma HandlerElsewhere(s: State, k: string, key: string)
    requires k != key
    ensures SameKey(s, AfterHandler(s, k), key)
  {}

  /** A call or an event of one key leaves the others alone. */
  lemma OtherKeysStay(s: State, a: Action, key: string)
    requires !a.Tick? && a.key != key
    ensures SameKey(s, Next(s, a), key)
  {
    match a
    case SetKey(k, value, overwrite, expiration) => SetElsewhere(s, k, value, overwrite, expiration, key);
    case Lock(k, expiration) => SetElsewhere(s, k, "", false, Some(expiration), key);
    case DeleteKey(k) => DeleteElsewhere(s, k, key);
    case Emit(k) => DeleteElsewhere(s, k, key);
    case Handle(k) => HandlerElsewhere(s, k, key);
  }

  /** What an accepted set does to its key, the shadow and the events on their way; overwriting a missing key stores nothing. */
  lemma SetWrites(s: State, key: string, value: string, overwrite: bool, expiration: Option<int>)
    requires !SetRefused(s.store, s.now, key, overwrite)
    ensures var s' := AfterSet(s, key, value, overwrite, expiration);
            && s'.now == s.now
            && s'.log == s.log + [KeyChange(if LockFree(s, key) then CREATE else SET, key, value)]
            && (if overwrite && LockFree(s, key)
                then (Plain(key) in s'.store <==> Plain(key) in s.store)
                     && (Plain(key) in s.store ==> s'.store[Plain(key)] == s.store[Plain(key)])
                else Plain(key) in s'.store && s'.store[Plain(key)]
                     == Entry(value, if expiration.Some? then Some(s.now + (expiration.value + ONE_DAY)) else None))
            && (expiration.Some? ==>
                  && Expiring(key) in s'.store && s'.store[Expiring(key)] == Entry("", Some(s.now + expiration.value))
                  && Expired(key) !in s'.store
                  && s'.inFlight == s.inFlight + if Pending(s, key) then multiset{key} else multiset{})
            && (expiration.None? ==>
                  && (Expiring(key) in s'.store <==> Expiring(key) in s.store)
                  && (Expiring(key) in s.store ==> s'.store[Expiring(key)] == s.store[Expiring(key)])
                  && (Expired(key) in s'.store <==> Expired(key) in s.store)
                  && s'.inFlight == s.inFlight)
  {
    var t := if expiration.Some? then Touched(s, key) else s;
    StoreAfterSetHere(t.store, t.now, key, value, overwrite, expiration);
  }

  /** A delete of an existing key removes it, its shadow and its marker, and tells its value. */
  lemma DeleteWrites(s: State, key: string)
    requires Exists(s.store, s.now, Plain(key))
    ensures var s' := AfterDelete(s, key);
            && Plain(key) !in s'.store && Expiring(key) !in s'.store && Expired(key) !in s'.store
            && s'.log == s.log + [KeyChange(DELETE, key, s.store[Plain(key)].value)]
            && s'.inFlight == s.inFlight + if Pending(s, key) then multiset{key} else multiset{}
  {}

  lemma HandlerDelivers(s: State, key: string)
    requires Exists(s.store, s.now, Plain(key))
    ensures AfterHandler(s, key).log == s.log + [KeyChange(EXPIRE, key, s.store[Plain(key)].value)]
    ensures s.store[Plain(key)].value != "" ==> LockFree(AfterHandler(s, key), key)
  {}

  // ---------------------------------------------------------------- expiry delivers the last value

  /** The value most recently set under a key and not deleted since, according to the events. */
  function LastSet(log: seq<KeyChange>, key: string): Option<string> {
    if log == [] then None
    else
      var e := log[|log| - 1];
      if e.key != key || e.event == EXPIRE then LastSet(log[..|log| - 1], key)
      else if e.event == DELETE then None
      else Some(e.value)
  }

  lemma LastSetSnoc(log: seq<KeyChange>, e: KeyChange, key: string)
    ensures LastSet(log + [e], key) ==
              if e.key != key || e.event == EXPIRE then LastSet(log, key)
              else if e.event == DELETE then None else Some(e.value)
  {
    assert (log + [e])[..|log|] == log;
  }

  /** A visible key holds the last value set under it, and every shadow has a deadline. */
  ghost predicate Honest(s: State, key: string) {
    && (Exists(s.store, s.now, Plain(key)) ==> LastSet(s.log, key) == Some(s.store[Plain(key)].value))
    && (Expiring(key) in s.store ==> s.store[Expiring(key)].deadline.Some?)
  }

  /** Every EXPIRE event carries the value that was last set under its key. */
  ghost predicate LogFaithful(log: seq<KeyChange>) {
    forall j | 0 <= j < |log| && log[j].event == EXPIRE :: LastSet(log[..j], log[j].key) == Some(log[j].value)
  }

  lemma LogGrows(log: seq<KeyChange>, e: KeyChange)
    requires LogFaithful(log) && (e.event == EXPIRE ==> LastSet(log, e.key) == Some(e.value))
    ensures LogFaithful(log + [e])
  {
    forall j | 0 <= j < |log + [e]| && (log + [e])[j].event == EXPIRE
      ensures LastSet((log + [e])[..j], (log + [e])[j].key) == Some((log + [e])[j].value)
    {
      assert (log + [e])[..j] == log[..j];
      if j == |log| { assert log[..j] == log; }
    }
  }

  lemma SetKeepsHonest(s: State, k: string, value: string, overwrite: bool, expiration: Option<int>, key: string)
    requires Honest(s, key)
    ensures Honest(AfterSet(s, k, value, overwrite, expiration), key)
  {
    if !SetRefused(s.store, s.now, k, overwrite) {
      LastSetSnoc(s.log, SetEvent(s.store, s.now, k, value), key);
      if k == key { SetWrites(s, key, value, overwrite, expiration); } else { SetElsewhere(s, k, value, overwrite, expiration, key); }
    }
  }

  lemma DeleteKeepsHonest(s: State, k: string, key: string)
    requires Honest(s, key)
    ensures Honest(AfterDelete(s, k), key)
  {
    if Exists(s.store, s.now, Plain(k)) {
      LastSetSnoc(s.log, KeyChange(DELETE, k, s.store[Plain(k)].value), key);
    }
  }

  lemma HandlerKeepsHonest(s: State, k: string, key: string)
    requires Honest(s, key)
    ensures Honest(AfterHandler(s, k), key)
  {
    if Exists(s.store, s.now, Plain(k)) {
      LastSetSnoc(s.log, KeyChange(EXPIRE, k, s.store[Plain(k)].value), key);
    } else {
      assert s.log + [] == s.log;
    }
  }

  lemma StepKeepsHonest(s: State, a: Action, key: string)
    requires Honest(s, key) && Enabled(s, a)
    ensures Honest(Next(s, a), key)
  {
    match a
    case Tick(_) =>
    case SetKey(k, value, overwrite, expiration) => SetKeepsHonest(s, k, value, overwrite, expiration, key);
    case DeleteKey(k) => DeleteKeepsHonest(s, k, key);
    case Lock(k, expiration) => SetKeepsHonest(s, k, "", false, Some(expiration), key);
    case Emit(_) =>
    case Handle(k) => HandlerKeepsHonest(s, k, key);
  }

  lemma {:induction false} RunKeepsHonest(now: int, run: seq<Action>, key: string)
    requires Legal(Init(now), run)
    ensures Honest(Exec(Init(now), run), key)
  {
    if run != [] {
      RunKeepsHonest(now, run[..|run| - 1], key);
      StepKeepsHonest(Exec(Init(now), run[..|run| - 1]), run[|run| - 1], key);
    }
  }

  lemma StepKeepsLog(s: State, a: Action)
    requires LogFaithful(s.log) && Enabled(s, a) && (a.Handle? ==> Honest(s, a.key))
    ensures LogFaithful(Next(s, a).log)
  {
    var s' := Next(s, a);
    if s'.log != s.log {
      var e := s'.log[|s.log|];
      assert s'.log == s.log + [e];
      LogGrows(s.log, e);
    }
  }

  /** In every run, every EXPIRE event that reaches the watchers carries the last value set under its key. */
  lemma {:induction false} ExpireEventsCarryLastValue(now: int, run: seq<Action>)
    requires Legal(Init(now), run)
    ensures LogFaithful(Exec(Init(now), run).log)
  {
    if run != [] {
      var front, a := run[..|run| - 1], run[|run| - 1];
      ExpireEventsCarryLastValue(now, front);
      if a.Handle? { RunKeepsHonest(now, front, a.key); }
      StepKeepsLog(Exec(Init(now), front), a);
    }
  }

  /**
    A handled expiry is delivered exactly if the key still exists: the event carries the last value set, and a
    non-empty value moves, with that content, from the key to its /expired entry.
   */
  lemma ExpiryIsDelivered(now: int, run: seq<Action>, key: string)
    requires Legal(Init(now), run) && key in Exec(Init(now), run).inFlight
    ensures var s := Exec(Init(now), run);
            var s' := Next(s, Handle(key));
            if !Exists(s.store, s.now, Plain(key)) then s'.log == s.log && s'.store == s.store
            else
              && LastSet(s.log, key).Some?
              && s'.log == s.log + [KeyChange(EXPIRE, key, LastSet(s.log, key).value)]
              && s'.store == if LastSet(s.log, key).value == "" then s.store
                             else s.store[Expired(key) := Entry(LastSet(s.log, key).value, None)] - {Plain(key)}
  {
    RunKeepsHonest(now, run, key);
    assert Exec(Init(now), run).log + [] == Exec(Init(now), run).log;
  }

  // ---------------------------------------------------------------- shadows and their keys

  /** A shadow, expired or not, has a key that outlives it by a day. */
  predicate Backed(s: State, key: string) {
    Expiring(key) in s.store && s.store[Expiring(key)].deadline.Some? ==>
      && Plain(key) in s.store
      && (s.store[Plain(key)].deadline.Some? ==>
            s.store[Plain(key)].deadline.value >= s.store[Expiring(key)].deadline.value + ONE_DAY)
  }

  /**
    The step leaves no shadow without its key; decided before it is taken.  A set with an expiration must not
    overwrite a missing key, and an event must not be handled after its key was given a new expiration.
   */
  predicate BacksShadow(s: State, a: Action, key: string) {
    match a
    case SetKey(k, _, overwrite, expiration) =>
      k == key && overwrite && expiration.Some? ==> Exists(s.store, s.now, Plain(key))
    case Handle(k) =>
      k == key && Expiring(key) in s.store ==> !Exists(s.store, s.now, Plain(key)) || s.store[Plain(key)].value == ""
    case _ => true
  }

  lemma SetBacksShadowIff(s: State, key: string, value: string, overwrite: bool, expiration: Option<int>)
    requires Backed(s, key) && (expiration.Some? ==> expiration.value > 0)
    ensures Backed(AfterSet(s, key, value, overwrite, expiration), key) <==>
              (overwrite && expiration.Some? ==> Exists(s.store, s.now, Plain(key)))
  {
    if !SetRefused(s.store, s.now, key, overwrite) { SetWrites(s, key, value, overwrite, expiration); }
  }

  lemma HandlerKeepsBackedIff(s: State, key: string)
    requires Honest(s, key) && Backed(s, key)
    ensures Backed(AfterHandler(s, key), key) <==> BacksShadow(s, Handle(key), key)
  {}

  lemma StepKeepsBackedIff(s: State, a: Action, key: string)
    requires Honest(s, key) && Backed(s, key) && Enabled(s, a)
    ensures Backed(Next(s, a), key) <==> BacksShadow(s, a, key)
  {
    if a.Tick? {
    } else if a.key != key {
      OtherKeysStay(s, a, key);
    } else if a.SetKey? {
      SetBacksShadowIff(s, key, a.value, a.overwrite, a.expiration);
    } else if a.Lock? {
      SetBacksShadowIff(s, key, "", false, Some(a.duration));
    } else if a.Handle? {
      HandlerKeepsBackedIff(s, key);
    }
  }

  predicate AllBackShadow(s: State, run: seq<Action>, key: string) {
    run == [] ||
      (AllBackShadow(s, run[..|run| - 1], key) && BacksShadow(Exec(s, run[..|run| - 1]), run[|run| - 1], key))
  }

  predicate BackedThroughout(s: State, run: seq<Action>, key: string) {
    Backed(Exec(s, run), key) && (run == [] || BackedThroughout(s, run[..|run| - 1], key))
  }

  /** In any run, a key's shadow is backed at every moment if and only if every step backs it. */
  lemma {:induction false} BackedThroughoutIff(now: int, run: seq<Action>, key: string)
    requires Legal(Init(now), run)
    ensures BackedThroughout(Init(now), run, key) <==> AllBackShadow(Init(now), run, key)
  {
    if run != [] {
      var front := run[..|run| - 1];
      BackedThroughoutIff(now, front, key);
      RunKeepsHonest(now, front, key);
      if Backed(Exec(Init(now), front), key) { StepKeepsBackedIff(Exec(Init(now), front), run[|run| - 1], key); }
    }
  }

  lemma ThroughoutEnds(s: State, run: seq<Action>, key: string)
    requires BackedThroughout(s, run, key)
    ensures Backed(Exec(s, run), key)
  {}

  /** A live shadow has a live key that outlives it by at least a day, or for ever. */
  lemma LiveShadowHasLiveKey(now: int, run: seq<Action>, key: string)
    requires Legal(Init(now), run) && AllBackShadow(Init(now), run, key)
    requires Exists(Exec(Init(now), run).store, Exec(Init(now), run).now, Expiring(key))
    ensures var s := Exec(Init(now), run);
            && Exists(s.store, s.now, Plain(key))
            && (s.store[Plain(key)].deadline.Some? ==>
                  && s.store[Expiring(key)].deadline.Some?
                  && s.store[Plain(key)].deadline.value >= s.store[Expiring(key)].deadline.value + ONE_DAY)
  {
    BackedThroughoutIff(now, run, key);
    ThroughoutEnds(Init(now), run, key);
    RunKeepsHonest(now, run, key);
  }

  predicate Prompt(s: State, key: string) {
    || (Plain(key) in s.store && s.store[Plain(key)].deadline.None?)
    || (Expiring(key) in s.store && s.store[Expiring(key)].deadline.Some?
        && s.now < s.store[Expiring(key)].deadline.value + ONE_DAY)
  }

  lemma PromptlyHandled(s: State, key: string)
    requires Honest(s, key) && Backed(s, key) && Pending(s, key) && Prompt(s, key)
    ensures LastSet(s.log, key).Some?
    ensures Next(Next(s, Emit(key)), Handle(key)).log == s.log + [KeyChange(EXPIRE, key, LastSet(s.log, key).value)]
  {
    var t := Touched(s, key);
    assert Exists(t.store, t.now, Plain(key)) && t.store[Plain(key)] == s.store[Plain(key)];
    HandlerDelivers(t, key);
  }

  /** An expiry that is sent and handled within a day of its deadline, or at any time for a key without one, is delivered. */
  lemma PromptExpiryIsDelivered(now: int, run: seq<Action>, key: string)
    requires Legal(Init(now), run) && AllBackShadow(Init(now), run, key) && Pending(Exec(Init(now), run), key)
    requires Prompt(Exec(Init(now), run), key)
    ensures var s := Exec(Init(now), run);
            && LastSet(s.log, key).Some?
            && Next(Next(s, Emit(key)), Handle(key)).log == s.log + [KeyChange(EXPIRE, key, LastSet(s.log, key).value)]
  {
    BackedThroughoutIff(now, run, key);
    ThroughoutEnds(Init(now), run, key);
    RunKeepsHonest(now, run, key);
    PromptlyHandled(Exec(Init(now), run), key);
  }

  function LateRun(key: string, first: string, second: string, e: int, e': int): seq<Action>
    requires e > 0
  {
    [] + [SetKey(key, first, false, Some(e))] + [Tick(e)] + [SetKey(key, second, true, Some(e'))] + [Handle(key)]
  }

  /** The states of that run, from the empty store. */
  lemma LateStates(now: int, key: string, first: string, second: string, e: int, e': int)
    requires e > 0 && e' > 0 && second != ""
    ensures var s2 := Next(Next(Init(now), SetKey(key, first, false, Some(e))), Tick(e));
            var s3 := Next(s2, SetKey(key, second, true, Some(e')));
            var end := AfterHandler(s3, key);
            && key in s3.inFlight && end.now == now + e
            && Expiring(key) in end.store && end.store[Expiring(key)].deadline == Some(now + e + e')
            && Plain(key) !in end.store
            && Expired(key) in end.store && end.store[Expired(key)].value == second
  {
    SetWrites(Init(now), key, first, false, Some(e));
    var s2 := Next(Next(Init(now), SetKey(key, first, false, Some(e))), Tick(e));
    SetWrites(s2, key, second, true, Some(e'));
    LateHandler(Next(s2, SetKey(key, second, true, Some(e'))), key);
  }

  /**
    An event that is handled late takes away a key that was given a new expiration meanwhile, long before that
    expiration: for every key, non-empty value and expirations, in a run of four steps.
   */
  lemma LateHandlingTakesKey(now: int, key: string, first: string, second: string, e: int, e': int)
    requires e > 0 && e' > 0 && second != ""
    ensures var run := LateRun(key, first, second, e, e');
            var end := Exec(Init(now), run);
            && Legal(Init(now), run) && end.now == now + e
            && Expiring(key) in end.store && end.store[Expiring(key)].deadline == Some(now + e + e')
            && Plain(key) !in end.store
            && Expired(key) in end.store && end.store[Expired(key)].value == second
  {
    LateStates(now, key, first, second, e, e');
    FourSteps(Init(now), SetKey(key, first, false, Some(e)), Tick(e), SetKey(key, second, true, Some(e')), Handle(key));
  }

  lemma FourSteps(s: State, a: Action, b: Action, c: Action, d: Action)
    requires Enabled(s, a) && Enabled(Next(s, a), b) && Enabled(Next(Next(s, a), b), c)
    requires Enabled(Next(Next(Next(s, a), b), c), d)
    ensures var run := [] + [a] + [b] + [c] + [d];
            Legal(s, run) && Exec(s, run) == Next(Next(Next(Next(s, a), b), c), d)
  {
    ExecSnoc(s, [], a);
    ExecSnoc(s, [] + [a], b);
    ExecSnoc(s, [] + [a] + [b], c);
    ExecSnoc(s, [] + [a] + [b] + [c], d);
  }

  lemma LateHandler(s: State, key: string)
    requires Exists(s.store, s.now, Plain(key)) && s.store[Plain(key)].value != "" && Expiring(key) in s.store
    ensures var s' := AfterHandler(s, key);
            && Plain(key) !in s'.store && Expired(key) in s'.store && s'.store[Expired(key)].value == s.store[Plain(key)].value
            && Expiring(key) in s'.store && s'.store[Expiring(key)] == s.store[Expiring(key)] && s'.now == s.now
  {}

  // ---------------------------------------------------------------- locks

  /** Neither the key's own deadline nor the handling of an event can free the key before `until`. */
  predicate Held(s: State, key: string, until: int) {
    && Plain(key) in s.store
    && (s.store[Plain(key)].deadline.Some? ==> s.store[Plain(key)].deadline.value >= until)
    && (s.store[Plain(key)].value != "" ==> Undisturbed(s, key, until))
  }

  /** No event of the key is on its way, and none will be before `until`; the handler spares empty values anyway. */
  predicate Undisturbed(s: State, key: string, until: int) {
    && key !in s.inFlight
    && (Expiring(key) in s.store ==>
          s.store[Expiring(key)].deadline.Some? && s.store[Expiring(key)].deadline.value >= until)
  }

  /** An overwriting set that does not shorten the lock. */
  predicate Covers(s: State, key: string, value: string, expiration: Option<int>, until: int) {
    match expiration
    case None => value == "" || Undisturbed(s, key, until)
    case Some(x) =>
      if value == "" then s.now + x + ONE_DAY >= until
      else s.now + x >= until && key !in s.inFlight && !Pending(s, key)
  }

  /** No step frees the key by design: no delete of it, and every overwriting set covers the lock. */
  predicate Respects(s: State, a: Action, key: string, until: int) {
    && !(a.DeleteKey? && a.key == key)
    && (a.SetKey? && a.key == key && a.overwrite ==> Covers(s, key, a.value, a.expiration, until))
  }

  predicate RunRespects(s: State, run: seq<Action>, key: string, until: int) {
    run == [] ||
      (RunRespects(s, run[..|run| - 1], key, until) && Respects(Exec(s, run[..|run| - 1]), run[|run| - 1], key, until))
  }

  lemma SetKeepsHeld(s: State, a: Action, key: string, until: int)
    requires a.SetKey? && a.key == key && a.overwrite
    requires Held(s, key, until) && s.now < until && Enabled(s, a) && Respects(s, a, key, until)
    ensures Held(Next(s, a), key, until)
  {
    SetWrites(s, key, a.value, true, a.expiration);
  }

  lemma StepKeepsHeld(s: State, a: Action, key: string, until: int)
    requires Held(s, key, until) && s.now < until && Enabled(s, a) && Respects(s, a, key, until)
    ensures Held(Next(s, a), key, until)
  {
    assert Exists(s.store, s.now, Plain(key));
    if a.Tick? {
    } else if a.key != key {
      OtherKeysStay(s, a, key);
    } else if a.SetKey? && a.overwrite {
      SetKeepsHeld(s, a, key, until);
    } else if a.SetKey? || a.Lock? {
      assert Next(s, a) == s;
    }
  }

  lemma {:induction false} RunKeepsHeld(s: State, run: seq<Action>, key: string, until: int)
    requires Held(s, key, until) && Legal(s, run) && RunRespects(s, run, key, until)
    ensures Exec(s, run).now < until ==> Held(Exec(s, run), key, until)
  {
    if run != [] {
      var front, a := run[..|run| - 1], run[|run| - 1];
      RunKeepsHeld(s, front, key, until);
      var s1 := Exec(s, front);
      assert s1.now <= Next(s1, a).now;
      if s1.now < until { StepKeepsHeld(s1, a, key, until); }
    }
  }

  /**
    Lock exclusion: after a lock was acquired for `expiration` seconds, no lock on that key succeeds before
    `until`, in any run that neither deletes the key nor overwrites it with something shorter-lived,
    whatever expiry events are on their way.  `until` may reach a day past the requested expiration, because
    the expiry handler leaves the lock's empty value in place.
   */
  lemma LockExclusion(s: State, key: string, expiration: int, run: seq<Action>, until: int)
    requires LockFree(s, key) && Enabled(s, Lock(key, expiration))
    requires until <= s.now + expiration + ONE_DAY
    requires var s' := Next(s, Lock(key, expiration)); Legal(s', run) && RunRespects(s', run, key, until)
    ensures var end := Exec(Next(s, Lock(key, expiration)), run);
            end.now < until ==> !LockFree(end, key)
  {
    var s' := Next(s, Lock(key, expiration));
    assert Held(s', key, until);
    RunKeepsHeld(s', run, key, until);
  }

  predicate Passive(run: seq<Action>) { forall i | 0 <= i < |run| :: run[i].Tick? || run[i].Emit? || run[i].Handle? }

  predicate Frees(s: State, run: seq<Action>, key: string, until: int) {
    Legal(s, run) && Passive(run) && Exec(s, run).now < until && LockFree(Exec(s, run), key)
  }

  /** Some run in which nobody calls anything frees the key before `until`. */
  ghost predicate FreedEarly(s: State, key: string, until: int) {
    exists run :: Frees(s, run, key, until)
  }

  lemma HandlerFreesNow(s: State, key: string)
    requires key in s.inFlight && Exists(s.store, s.now, Plain(key)) && s.store[Plain(key)].value != ""
    ensures Enabled(s, Handle(key)) && Next(s, Handle(key)).now == s.now && LockFree(Next(s, Handle(key)), key)
  {
    HandlerDelivers(s, key);
  }

  /** An event on its way frees a key with a visible, non-empty value. */
  lemma HandlerFrees(s: State, run: seq<Action>, key: string, until: int)
    requires Legal(s, run) && Passive(run)
    requires var e := Exec(s, run);
             && e.now < until && key in e.inFlight && Exists(e.store, e.now, Plain(key)) && e.store[Plain(key)].value != ""
    ensures FreedEarly(s, key, until)
  {
    HandlerFreesNow(Exec(s, run), key);
    ExecSnoc(s, run, Handle(key));
    assert Frees(s, run + [Handle(key)], key, until);
  }

  /** So does a shadow whose deadline comes first. */
  lemma ShadowFrees(s: State, key: string, until: int)
    requires Expiring(key) in s.store && s.store[Expiring(key)].deadline.Some? && s.now < until
    requires s.store[Expiring(key)].deadline.value < until
    requires Plain(key) in s.store && s.store[Plain(key)].value != ""
    requires s.store[Plain(key)].deadline.Some? ==>
               && s.store[Plain(key)].deadline.value > s.store[Expiring(key)].deadline.value
               && s.store[Plain(key)].deadline.value > s.now
    ensures FreedEarly(s, key, until)
  {
    var d := s.store[Expiring(key)].deadline.value;
    var wait := Tick(if d < s.now then 0 else d - s.now);
    ExecSnoc(s, [], wait);
    ExecSnoc(s, [] + [wait], Emit(key));
    HandlerFrees(s, [] + [wait] + [Emit(key)], key, until);
  }

  /** The demand on overwriting sets is exact: any other one can be followed by steps that free the key too early. */
  lemma UncoveredSetFreesLock(s: State, key: string, value: string, expiration: Option<int>, until: int)
    requires Honest(s, key) && Held(s, key, until) && s.now < until
    requires Enabled(s, SetKey(key, value, true, expiration)) && !Covers(s, key, value, expiration, until)
    ensures FreedEarly(Next(s, SetKey(key, value, true, expiration)), key, until)
  {
    var s' := Next(s, SetKey(key, value, true, expiration));
    SetWrites(s, key, value, true, expiration);
    if value == "" {
      var wait := Tick(expiration.value + ONE_DAY);
      ExecSnoc(s', [], wait);
      assert LockFree(Next(s', wait), key);
      assert Frees(s', [] + [wait], key, until);
    } else if key in s'.inFlight {
      HandlerFrees(s', [], key, until);
    } else {
      ShadowFrees(s', key, until);
    }
  }
}
