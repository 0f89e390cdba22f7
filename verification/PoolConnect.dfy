/** ObservablePooledDatabase._connect of data/database.py: bounded retries with back-off.  Times are in seconds. */
module PoolConnect {
  import opened Prelude

  const MAX_RETRIES: nat := 7

  /**
    What one attempt meets: the pool is exhausted (with the random part of the jitter), connecting fails
    outright, or the pool hands out a connection that passes or fails the liveness check.
   */
  datatype Attempt = Exhausted(random: real) | Refused | Healthy(conn: nat) | Dead(conn: nat)

  datatype Error = OperationalError | ConnectFailed

  predicate Possible(a: Attempt, inUse: set<nat>) {
    match a
    case Exhausted(_) => true
    case Refused => true
    case Healthy(conn) => conn !in inUse
    case Dead(conn) => conn !in inUse
  }

  function Min(a: real, b: real): real { if a < b then a else b }

  function Pow2(k: nat): (r: real)
    ensures r >= 1.0
  {
    if k == 0 then 1.0 else 2.0 * Pow2(k - 1)
  }

  function ExhaustedDelay(k: nat): real { Min(0.01 * Pow2(k), 0.2) }

  function DeadDelay(k: nat): real { if k == 0 then 0.0 else Min(0.01 * k as real, 0.05) }

  /** The longest total sleep from retry `k` on: every attempt exhausted, every jitter at its greatest. */
  function SleepBound(k: nat): real
    decreases if k < MAX_RETRIES then MAX_RETRIES - k else 0
  {
    if k >= MAX_RETRIES then 0.0 else 1.25 * ExhaustedDelay(k) + SleepBound(k + 1)
  }

  lemma SleepBoundFromStart()
    ensures SleepBound(0) == 0.8875
  {}

  lemma DeadDelayIsShorter(k: nat)
    requires k < MAX_RETRIES
    ensures 0.0 <= DeadDelay(k) <= 1.25 * ExhaustedDelay(k)
  {
    assert Pow2(0) == 1.0 && Pow2(1) == 2.0 && Pow2(2) == 4.0 && Pow2(3) == 8.0;
    assert Pow2(4) == 16.0 && Pow2(5) == 32.0 && Pow2(6) == 64.0;
  }

  /** The delay with a jitter of plus or minus a quarter. */
  function Jittered(delay: real, random: real): (d: real)
    requires 0.0 <= delay && 0.0 <= random <= 0.5
    ensures 0.75 * delay <= d <= 1.25 * delay
    ensures random == 0.0 ==> d == 0.75 * delay
    ensures random == 0.5 ==> d == 1.25 * delay
  {
    assert delay * (0.75 + random) == 0.75 * delay + delay * random;
    assert 0.0 <= delay * random;
    assert 0.0 <= delay * (0.5 - random) == 0.5 * delay - delay * random;
    delay * (0.75 + random)
  }

  /** The seven delays, in seconds: after an exhausted pool before jitter, and after a dead connection. */
  lemma Schedule()
    ensures ExhaustedDelay(0) == 0.01 && ExhaustedDelay(1) == 0.02 && ExhaustedDelay(2) == 0.04
    ensures ExhaustedDelay(3) == 0.08 && ExhaustedDelay(4) == 0.16 && ExhaustedDelay(5) == 0.2 && ExhaustedDelay(6) == 0.2
    ensures DeadDelay(0) == 0.0 && DeadDelay(1) == 0.01 && DeadDelay(2) == 0.02 && DeadDelay(3) == 0.03
    ensures DeadDelay(4) == 0.04 && DeadDelay(5) == 0.05 && DeadDelay(6) == 0.05
  {
    assert Pow2(1) == 2.0 && Pow2(2) == 4.0 && Pow2(3) == 8.0;
    assert Pow2(4) == 16.0 && Pow2(5) == 32.0 && Pow2(6) == 64.0;
  }

  /** How long attempt `k` is slept on before the next. */
  function DelayAfter(a: Attempt, k: nat): real
    requires a.Exhausted? ==> 0.0 <= a.random <= 0.5
  {
    match a
    case Exhausted(random) => Jittered(ExhaustedDelay(k), random)
    case Dead(_) => DeadDelay(k)
    case _ => 0.0
  }

  predicate JittersPossible(attempts: seq<Attempt>) {
    forall i | 0 <= i < |attempts| && attempts[i].Exhausted? :: 0.0 <= attempts[i].random <= 0.5
  }

  function TotalDelay(attempts: seq<Attempt>, k: nat, made: nat): real
    requires k + made <= |attempts| && JittersPossible(attempts)
    decreases made
  {
    if made == 0 then 0.0 else DelayAfter(attempts[k], k) + TotalDelay(attempts, k + 1, made - 1)
  }

  /** Whatever the attempts meet, the sleep stays within the bound. */
  lemma {:induction false} TotalDelayBounded(attempts: seq<Attempt>, k: nat, made: nat)
    requires k + made <= |attempts| == MAX_RETRIES && JittersPossible(attempts)
    ensures 0.0 <= TotalDelay(attempts, k, made) <= SleepBound(k)
    decreases made
  {
    if made == 0 {
      SleepBoundNonNegative(k);
    } else {
      DeadDelayIsShorter(k);
      TotalDelayBounded(attempts, k + 1, made - 1);
    }
  }

  predicate Retried(a: Attempt) { a.Exhausted? || a.Dead? }

  /** Attempt `i` is the first that is not retried. */
  predicate Settles(attempts: seq<Attempt>, i: nat) {
    i < |attempts| && !Retried(attempts[i]) && forall j | 0 <= j < i :: Retried(attempts[j])
  }

  lemma SettlesOnce(attempts: seq<Attempt>, i: nat, j: nat)
    requires Settles(attempts, i) && Settles(attempts, j)
    ensures i == j
  {}

  class PooledDatabase {
    var inUse: set<nat>
    var slept: real

    constructor ()
      ensures inUse == {} && slept == 0.0
    {
      inUse, slept := {}, 0.0;
    }

    /**
      From retry `k` on: the connection handed back is that of the first attempt that is not retried, it is the only
      one added to the pool's bookkeeping, at most the remaining attempts are made, and each
      retried one is slept on.
     */
    method Connect(k: nat, attempts: seq<Attempt>) returns (r: Result<nat, Error>, made: nat)
      requires |attempts| == MAX_RETRIES && k <= MAX_RETRIES
      requires JittersPossible(attempts) && forall i | k <= i < MAX_RETRIES :: Possible(attempts[i], inUse)
      modifies this
      ensures made <= MAX_RETRIES - k
      ensures forall i | k <= i < k + made - 1 :: Retried(attempts[i])
      ensures r.Ok? <==> made > 0 && attempts[k + made - 1].Healthy?
      ensures r.Ok? ==> attempts[k + made - 1] == Healthy(r.value)
      ensures r == Err(ConnectFailed) <==> made > 0 && attempts[k + made - 1].Refused?
      ensures r == Err(OperationalError) ==>
                made == MAX_RETRIES - k && forall i | k <= i < MAX_RETRIES :: Retried(attempts[i])
      ensures || (made > 0 && !Retried(attempts[k + made - 1]))
              || (made == MAX_RETRIES - k && forall i | k <= i < MAX_RETRIES :: Retried(attempts[i]))
      ensures inUse == old(inUse) + if r.Ok? then {r.value} else {}
      ensures r.Ok? ==> r.value !in old(inUse)
      ensures slept == old(slept) + TotalDelay(attempts, k, made)
      decreases MAX_RETRIES - k
    {
      if k >= MAX_RETRIES {
        return Err(OperationalError), 0;
      }
      match attempts[k] {
        case Exhausted(random) =>
          slept := slept + Jittered(Min(0.01 * Pow2(k), 0.2), random);
          r, made := Connect(k + 1, attempts);
          made := made + 1;
        case Refused =>
          return Err(ConnectFailed), 1;
        case Healthy(conn) =>
          inUse := inUse + {conn};
          return Ok(conn), 1;
        case Dead(conn) =>
          inUse := inUse + {conn};
          inUse := inUse - {conn};
          assert inUse == old(inUse);
          if k > 0 {
            slept := slept + Min(0.01 * k as real, 0.05);
          }
          r, made := Connect(k + 1, attempts);
          made := made + 1;
      }
    }

    /** A connect from scratch makes at most seven attempts, leaks nothing and sleeps at most 0.8875 seconds. */
    method ConnectFresh(attempts: seq<Attempt>) returns (r: Result<nat, Error>, made: nat)
      requires |attempts| == MAX_RETRIES && JittersPossible(attempts)
      requires forall i | 0 <= i < MAX_RETRIES :: Possible(attempts[i], inUse)
      modifies this
      ensures made <= 7
      ensures forall i: nat | Settles(attempts, i) ::
                r == if attempts[i].Healthy? then Ok(attempts[i].conn) else Err(ConnectFailed)
      ensures (forall i: nat :: !Settles(attempts, i)) ==> r == Err(OperationalError)
      ensures inUse == old(inUse) + if r.Ok? then {r.value} else {}
      ensures old(slept) <= slept <= old(slept) + 0.8875
    {
      SleepBoundFromStart();
      r, made := Connect(0, attempts);
      TotalDelayBounded(attempts, 0, made);
      if made > 0 && !Retried(attempts[made - 1]) {
        assert Settles(attempts, made - 1);
        forall i: nat | Settles(attempts, i) ensures i == made - 1 { SettlesOnce(attempts, i, made - 1); }
      } else {
        forall i: nat | i < MAX_RETRIES ensures !Settles(attempts, i) { assert Retried(attempts[i]); }
        assert r.Err? && !r.error.ConnectFailed?;
      }
    }
  }

  lemma {:induction false} SleepBoundNonNegative(k: nat)
    ensures SleepBound(k) >= 0.0
    decreases if k < MAX_RETRIES then MAX_RETRIES - k else 0
  {
    if k < MAX_RETRIES { SleepBoundNonNegative(k + 1); }
  }
}
