/**
  The rows of the queue table and the operations data/queue.py performs on them.
  Times and durations are integers (microseconds).  A state id stands for a UUID;
  the caller supplies the id that a write installs.
 */
module QueueRows {
  import opened Prelude

  const SECOND: int := 1_000_000
  const MINIMUM_EXTENSION: int := 20 * SECOND

  datatype Row = Row(
    queueName: string,
    body: string,
    availableAfter: int,
    available: bool,
    processingExpires: Option<int>,
    retriesRemaining: int,
    stateId: nat)

  type Table = map<nat, Row>

  /** An item as handed to put() and batch_put(); `delay` is relative to the insertion time. */
  datatype Item = Item(queueName: string, body: string, delay: int, retries: int, stateId: nat)

  /** Comparisons with a NULL expiry are never true. */
  predicate Running(r: Row, now: int) {
    !r.available && r.processingExpires.Some? && r.processingExpires.value > now
  }

  predicate Available(r: Row, now: int) {
    && r.availableAfter <= now
    && (r.available || (r.processingExpires.Some? && r.processingExpires.value <= now))
    && r.retriesRemaining > 0
  }

  function NewRow(item: Item, now: int): Row {
    Row(item.queueName, item.body, now + item.delay, true, None, item.retries, item.stateId)
  }

  function ClaimedRow(r: Row, now: int, processingTime: int, sid: nat): Row {
    r.(available := false, processingExpires := Some(now + processingTime),
       retriesRemaining := r.retriesRemaining - 1, stateId := sid)
  }

  function ReleasedRow(r: Row, retryDate: int, restoreRetry: bool, sid: nat): Row {
    r.(availableAfter := retryDate, available := true,
       retriesRemaining := r.retriesRemaining + (if restoreRetry then 1 else 0), stateId := sid)
  }

  /** `Unsubtractable` is the exception raised when the row was never claimed (NULL expiry). */
  datatype Extension = Skipped | Written(row: Row) | Unsubtractable

  function ExtendRow(r: Row, newExpiration: int, minimumExtension: int, data: Option<string>, sid: nat): Extension {
    if r.processingExpires.None? then Unsubtractable
    else
      var later := newExpiration - r.processingExpires.value > minimumExtension;
      var edited := data.Some? && r.body != data.value;
      if !later && !edited then Skipped
      else Written(r.(processingExpires := if later then Some(newExpiration) else r.processingExpires,
                      body := if edited then data.value else r.body,
                      stateId := sid))
  }

  /** The row left behind by an extension, whether or not it was written. */
  function AfterExtension(r: Row, e: Extension): Row {
    if e.Written? then e.row else r
  }

  /**
    Whatever extend_processing does, the lease reaches to within the minimum extension of
    what was asked for, it moves back only when a negative minimum allows it, and
    nothing but the expiry, the body and the state id moves.  Unless the minimum is negative
    the row is written exactly when its expiry or its body changes.
   */
  lemma ExtensionReaches(r: Row, newExpiration: int, minimumExtension: int, data: Option<string>, sid: nat)
    ensures var e := ExtendRow(r, newExpiration, minimumExtension, data, sid);
            var r' := AfterExtension(r, e);
            && (e.Unsubtractable? <==> r.processingExpires.None?)
            && (r.processingExpires.Some? ==>
                  && r'.processingExpires.Some?
                  && r'.processingExpires.value
                       >= newExpiration - (if minimumExtension < 0 then 0 else minimumExtension)
                  && (minimumExtension >= 0 ==> r'.processingExpires.value >= r.processingExpires.value)
                  && (data.Some? ==> r'.body == data.value)
                  && (data.None? ==> r'.body == r.body))
            && r' == r.(processingExpires := r'.processingExpires, body := r'.body, stateId := r'.stateId)
            && (e.Written? ==> r'.stateId == sid)
            && (!e.Written? ==> r' == r)
            && (minimumExtension >= 0 ==>
                  (e.Written? <==> r'.processingExpires != r.processingExpires || r'.body != r.body))
  {}

  /** The compare-and-swap of _attempt_to_claim_item: only the id and the state id are matched. */
  predicate ClaimHits(t: Table, item: nat, expected: nat) {
    item in t && t[item].stateId == expected
  }

  function Claim(t: Table, item: nat, expected: nat, now: int, processingTime: int, sid: nat): (Table, bool) {
    if ClaimHits(t, item, expected)
    then (t[item := ClaimedRow(t[item], now, processingTime, sid)], true)
    else (t, false)
  }

  /** The claim the comment at data/queue.py:305-308 replaced: every availability column is rechecked. */
  function WideClaim(t: Table, item: nat, expected: nat, now: int, processingTime: int, sid: nat): (Table, bool) {
    if ClaimHits(t, item, expected) && Available(t[item], now)
    then (t[item := ClaimedRow(t[item], now, processingTime, sid)], true)
    else (t, false)
  }

  /** A candidate of the ordered query: available, matching, and no row of that name is running. */
  predicate OrderedCandidate(t: Table, matches: string -> bool, now: int, item: nat) {
    && item in t
    && matches(t[item].queueName)
    && Available(t[item], now)
    && forall j <- t.Keys :: Running(t[j], now) && matches(t[j].queueName) ==> t[j].queueName != t[item].queueName
  }

  predicate UnorderedCandidate(t: Table, matches: string -> bool, now: int, item: nat) {
    item in t && matches(t[item].queueName) && Available(t[item], now)
  }

  /** ORDER BY id ... LIMIT 1. */
  predicate OrderedPick(t: Table, matches: string -> bool, now: int, item: nat) {
    && OrderedCandidate(t, matches, now, item)
    && forall j <- t.Keys :: OrderedCandidate(t, matches, now, j) ==> item <= j
  }

  /** Row by row insertion with consecutive ids. */
  function InsertAll(t: Table, nextId: nat, rows: seq<Row>): Table
    decreases |rows|
  {
    if rows == [] then t else InsertAll(t[nextId := rows[0]], nextId + 1, rows[1..])
  }

  lemma {:induction false} InsertAllConcat(t: Table, nextId: nat, xs: seq<Row>, ys: seq<Row>)
    ensures InsertAll(t, nextId, xs + ys) == InsertAll(InsertAll(t, nextId, xs), nextId + |xs|, ys)
    decreases |xs|
  {
    if xs == [] {
      assert xs + ys == ys;
    } else {
      assert (xs + ys)[1..] == xs[1..] + ys;
      InsertAllConcat(t[nextId := xs[0]], nextId + 1, xs[1..], ys);
    }
  }

  /** Insertion puts exactly the given rows under consecutive ids and disturbs no other row. */
  lemma {:induction false} InsertAllContents(t: Table, nextId: nat, rows: seq<Row>)
    ensures var t' := InsertAll(t, nextId, rows);
            && (forall i: nat :: i in t' <==> i in t || nextId <= i < nextId + |rows|)
            && (forall i | nextId <= i < nextId + |rows| :: t'[i] == rows[i - nextId])
            && (forall i | i in t && !(nextId <= i < nextId + |rows|) :: t'[i] == t[i])
    decreases |rows|
  {
    if rows != [] {
      var t1 := t[nextId := rows[0]];
      InsertAllContents(t1, nextId + 1, rows[1..]);
      var t' := InsertAll(t1, nextId + 1, rows[1..]);
      assert t' == InsertAll(t, nextId, rows);
      forall i: nat ensures i in t' <==> i in t || nextId <= i < nextId + |rows| {
        assert i in t' <==> i in t1 || nextId + 1 <= i < nextId + |rows|;
      }
      assert t'[nextId] == t1[nextId];
    }
  }

  lemma LeastOf(s: set<nat>) returns (m: nat)
    requires s != {}
    ensures m in s && forall x <- s :: m <= x
  {
    m :| m in s;
    if x :| x in s && x < m {
      var first := m;
      assert x in s - {first};
      m := LeastOf(s - {first});
      assert m <= x < first && forall y <- s :: y == first || y in s - {first};
    }
  }
}

/** data/queue.py's WorkQueue over one table held in memory. */
module WorkQueues {
  import opened Prelude
  import opened QueueRows

  /** What get() hands back instead of the database object. */
  datatype View = View(id: nat, body: string, retriesRemaining: int)

  class WorkQueue {
    var table: Table
    var nextId: nat
    var itemsToInsert: seq<Row>
    const matches: string -> bool

    predicate Valid() reads this {
      forall i <- table.Keys :: i < nextId
    }

    constructor (matches: string -> bool)
      ensures Valid() && table == map[] && nextId == 0 && itemsToInsert == [] && this.matches == matches
    {
      table, nextId, itemsToInsert := map[], 0, [];
      this.matches := matches;
    }

    method Put(item: Item, now: int) returns (id: nat)
      requires Valid()
      modifies this`table, this`nextId
      ensures Valid() && id == old(nextId) && nextId == id + 1
      ensures id !in old(table)
      ensures table == old(table)[id := Row(item.queueName, item.body, now + item.delay, true, None, item.retries, item.stateId)]
    {
      id := nextId;
      table := table[id := NewRow(item, now)];
      nextId := nextId + 1;
    }

    /** batch_put: the row is fixed, its delay counting from now, but not yet inserted. */
    method BatchPut(item: Item, now: int)
      requires Valid()
      modifies this`itemsToInsert
      ensures Valid()
      ensures itemsToInsert == old(itemsToInsert)
                + [Row(item.queueName, item.body, now + item.delay, true, None, item.retries, item.stateId)]
    {
      itemsToInsert := itemsToInsert + [NewRow(item, now)];
    }

    /** The end of batch_insert: inserting in chunks of any size leaves what inserting one at a time leaves. */
    method BatchInsert(batchSize: nat)
      requires Valid()
      requires batchSize > 0
      modifies this
      ensures Valid() && itemsToInsert == []
      ensures nextId == old(nextId) + |old(itemsToInsert)|
      ensures table == InsertAll(old(table), old(nextId), old(itemsToInsert))
    {
      var remaining := itemsToInsert;
      itemsToInsert := [];
      ghost var done: seq<Row> := [];
      while remaining != []
        invariant done + remaining == old(itemsToInsert)
        invariant nextId == old(nextId) + |done| && itemsToInsert == []
        invariant table == InsertAll(old(table), old(nextId), done)
        decreases |remaining|
      {
        var n := if batchSize < |remaining| then batchSize else |remaining|;
        var currentBatch := remaining[..n];
        table := InsertAll(table, nextId, currentBatch);
        nextId := nextId + |currentBatch|;
        InsertAllConcat(old(table), old(nextId), done, currentBatch);
        done := done + currentBatch;
        remaining := remaining[n..];
      }
      assert done == old(itemsToInsert);
      InsertAllContents(old(table), old(nextId), done);
    }

    method SelectAvailable(orderingRequired: bool, now: int) returns (picked: Option<nat>)
      ensures orderingRequired && picked.Some? ==> OrderedPick(table, matches, now, picked.value)
      ensures !orderingRequired && picked.Some? ==> UnorderedCandidate(table, matches, now, picked.value)
      ensures orderingRequired && picked.None? ==> forall j :: !OrderedCandidate(table, matches, now, j)
      ensures !orderingRequired && picked.None? ==> forall j :: !UnorderedCandidate(table, matches, now, j)
    {
      if orderingRequired {
        var candidates := set j | j in table && OrderedCandidate(table, matches, now, j);
        if candidates == {} {
          assert forall j :: OrderedCandidate(table, matches, now, j) ==> j in candidates;
          return None;
        }
        ghost var least := LeastOf(candidates);
        var item :| item in candidates && forall j <- candidates :: item <= j;
        assert forall j :: OrderedCandidate(table, matches, now, j) ==> j in candidates;
        picked := Some(item);
      } else {
        var candidates := set j | j in table && UnorderedCandidate(table, matches, now, j);
        if candidates == {} {
          assert forall j :: UnorderedCandidate(table, matches, now, j) ==> j in candidates;
          return None;
        }
        var item :| item in candidates;
        picked := Some(item);
      }
    }

    method AttemptToClaim(item: nat, expected: nat, now: int, processingTime: int, sid: nat) returns (claimed: bool)
      modifies this`table
      ensures (table, claimed) == Claim(old(table), item, expected, now, processingTime, sid)
      ensures claimed <==> item in old(table) && old(table)[item].stateId == expected
      ensures !claimed ==> table == old(table)
      ensures claimed ==>
                var r := old(table)[item];
                table == old(table)[item := r.(available := false, processingExpires := Some(now + processingTime),
                                               retriesRemaining := r.retriesRemaining - 1, stateId := sid)]
    {
      if item in table && table[item].stateId == expected {
        table := table[item := ClaimedRow(table[item], now, processingTime, sid)];
        claimed := true;
      } else {
        claimed := false;
      }
    }

    /**
      get() with nothing interleaved between its select and its claim.  The row handed out is of this queue, due,
      free or expired, and has a retry left; an ordered get hands out the first such row of a name
      of which nothing is running; nothing is handed out exactly when there is no such row.
     */
    method Get(processingTime: int, orderingRequired: bool, now: int, sid: nat) returns (view: Option<View>)
      requires Valid()
      modifies this`table
      ensures Valid()
      ensures view.None? ==> table == old(table)
      ensures view.None? ==>
                forall j <- table.Keys :: MayBeTaken(table[j], now) ==> orderingRequired && NamesakeRuns(table, j, now)
      ensures view.Some? ==>
                var v := view.value;
                && v.id in old(table) && MayBeTaken(old(table)[v.id], now)
                && (orderingRequired ==>
                      && !NamesakeRuns(old(table), v.id, now)
                      && forall j <- old(table).Keys ::
                           j < v.id && MayBeTaken(old(table)[j], now) ==> NamesakeRuns(old(table), j, now))
      ensures view.Some? ==>
                var v, r := view.value, old(table)[view.value.id];
                && table == old(table)[v.id := r.(available := false, processingExpires := Some(now + processingTime),
                                                  retriesRemaining := r.retriesRemaining - 1, stateId := sid)]
                && v.body == r.body && v.retriesRemaining == r.retriesRemaining - 1
    {
      var picked := SelectAvailable(orderingRequired, now);
      if picked.None? {
        forall j | j in table && MayBeTaken(table[j], now) ensures orderingRequired && NamesakeRuns(table, j, now) {
          assert if orderingRequired then !OrderedCandidate(table, matches, now, j)
                 else !UnorderedCandidate(table, matches, now, j);
        }
        return None;
      }
      var dbItem := table[picked.value];
      if orderingRequired {
        forall j | j in table && j < picked.value && MayBeTaken(table[j], now) ensures NamesakeRuns(table, j, now) {
          assert !OrderedCandidate(table, matches, now, j);
        }
      }
      var claimed := AttemptToClaim(picked.value, dbItem.stateId, now, processingTime, sid);
      view := Some(View(picked.value, dbItem.body, dbItem.retriesRemaining - 1));
    }

    /** The row is of this queue, due, free or expired, and has a retry left. */
    predicate MayBeTaken(r: Row, now: int) {
      && matches(r.queueName) && r.availableAfter <= now && r.retriesRemaining > 0
      && (r.available || (r.processingExpires.Some? && r.processingExpires.value <= now))
    }

    /** A row of this name and queue is claimed and its time is not over. */
    predicate NamesakeRuns(t: Table, id: nat, now: int)
      requires id in t
    {
      exists j <- t.Keys :: t[j].queueName == t[id].queueName && matches(t[j].queueName)
                            && !t[j].available && t[j].processingExpires.Some? && t[j].processingExpires.value > now
    }

    method Cancel(item: nat) returns (removed: bool)
      requires Valid()
      modifies this`table
      ensures Valid()
      ensures removed <==> item in old(table)
      ensures table == old(table) - {item}
    {
      removed := item in table;
      table := table - {item};
    }

    method Incomplete(item: nat, retryAfter: int, restoreRetry: bool, now: int, sid: nat) returns (retriesLeft: bool)
      requires Valid()
      modifies this`table
      ensures Valid()
      ensures item !in old(table) ==> !retriesLeft && table == old(table)
      ensures item in old(table) ==>
                var r := old(table)[item];
                var retries := r.retriesRemaining + if restoreRetry then 1 else 0;
                && table == old(table)[item := r.(availableAfter := now + retryAfter, available := true,
                                                  retriesRemaining := retries, stateId := sid)]
                && table[item] == ReleasedRow(r, now + retryAfter, restoreRetry, sid)
                && (retriesLeft <==> retries > 0)
    {
      if item !in table { return false; }
      var r := table[item];
      r := r.(availableAfter := now + retryAfter, available := true);
      if restoreRetry {
        r := r.(retriesRemaining := r.retriesRemaining + 1);
      }
      r := r.(stateId := sid);
      table := table[item := r];
      retriesLeft := r.retriesRemaining > 0;
    }

    /** An error leaves the table as it was: the transaction is rolled back. */
    method ExtendProcessing(item: nat, duration: int, now: int, sid: nat,
                            minimumExtension: int := MINIMUM_EXTENSION, updatedData: Option<string> := None)
      returns (changed: Result<bool, string>)
      requires Valid()
      modifies this`table
      ensures Valid()
      ensures item !in old(table) ==> changed == Ok(false) && table == old(table)
      ensures item in old(table) ==>
                var r := old(table)[item];
                && (changed.Err? <==> r.processingExpires.None?)
                && table == old(table)[item := AfterExtension(r, ExtendRow(r, now + duration, minimumExtension, updatedData, sid))]
      ensures changed == Ok(true) ==> item in old(table) && old(table)[item].processingExpires.Some?
      ensures changed == Ok(true) ==>
                var r := old(table)[item];
                table == old(table)[item := r.(
                     processingExpires := if now + duration - r.processingExpires.value > minimumExtension
                                          then Some(now + duration) else r.processingExpires,
                     body := if updatedData.Some? then updatedData.value else r.body, stateId := sid)]
      ensures changed != Ok(true) ==> table == old(table)
      ensures changed == Ok(false) && item in old(table) ==>
                var r := old(table)[item];
                && r.processingExpires.Some? && now + duration - r.processingExpires.value <= minimumExtension
                && (updatedData.Some? ==> updatedData.value == r.body)
      ensures item in old(table) && minimumExtension >= 0 ==>
                (changed == Ok(true) <==> table[item].processingExpires != old(table)[item].processingExpires
                                          || table[item].body != old(table)[item].body)
    {
      if item !in table { return Ok(false); }
      var queueItem := table[item];
      var newExpiration := now + duration;
      var hasChange := false;
      if queueItem.processingExpires.None? {
        return Err("unsupported operand: NULL processing_expires");
      }
      if newExpiration - queueItem.processingExpires.value > minimumExtension {
        queueItem := queueItem.(processingExpires := Some(newExpiration));
        hasChange := true;
      }
      if updatedData.Some? && queueItem.body != updatedData.value {
        queueItem := queueItem.(body := updatedData.value);
        hasChange := true;
      }
      if hasChange {
        table := table[item := queueItem.(stateId := sid)];
      }
      changed := Ok(hasChange);
    }
  }
}
