/** A model of the resilient operation executor of src/supabase.ts.

    `executeWithRetry` runs a caller-supplied asynchronous operation up to
    MAX_RETRIES times. Each attempt races the operation against a timer; the
    first attempt that fulfils ends the call with its value and resets the
    module-level `connectionAttempts` counter. A rejected or timed-out attempt
    is recorded as the last error and, unless it was the last attempt, is
    followed by an exponential backoff sleep. When every attempt has failed the
    call rejects with an error naming the number of attempts and the message
    of the last error.

    Time is abstract: an invocation of the operation is described by when (if
    ever) it settles and how, a timeout is a number of milliseconds, and a
    backoff sleep is recorded in a log of delays instead of being waited out.
 */
module Supabase {

  // ---------------------------------------------------------------------------
  // Policy constants
  // ---------------------------------------------------------------------------

  /** Maximum number of attempts per call. */
  const MaxRetries: nat := 5
  /** Base backoff delay in milliseconds. */
  const RetryDelay: nat := 2000
  /** Per-attempt timeout in milliseconds when the caller gives none. */
  const MaxTimeout: nat := 10000
  /** Message of the error the timer rejects with. */
  const TimeoutMessage: string := "Operation timed out"

  // ---------------------------------------------------------------------------
  // Data model
  // ---------------------------------------------------------------------------

  datatype Option<T> = None | Some(value: T)

  /** How the promise returned by one invocation of the operation settles. */
  datatype Settlement<T> = Fulfilled(value: T) | Rejected(message: string)

  /** The behaviour of one invocation of the operation: it settles `after`
      milliseconds, or it never settles at all. */
  datatype Invocation<T> = Settles(after: nat, settlement: Settlement<T>) | NeverSettles

  /** The outcome of one attempt: the operation raced against the timer. */
  datatype Outcome<T> = Ok(value: T) | Err(message: string) | TimedOut
  {
    predicate Failed() { !Ok? }

    /** The message of the error recorded as the last error. */
    function ErrorMessage(): string
      requires Failed()
    {
      if TimedOut? then TimeoutMessage else message
    }
  }

  /** How a call to the executor ends: it resolves with a value or rejects. */
  datatype CallResult<T> = Returned(value: T) | Thrown(message: string)

  /** A call's result together with what it did on the way: how many times it
      invoked the operation and the backoff delays it slept, in order. */
  datatype Report<T> = Report(result: CallResult<T>, attempts: nat, delays: seq<nat>)

  // ---------------------------------------------------------------------------
  // One attempt
  // ---------------------------------------------------------------------------

  /** The timeout actually used: `customTimeout` defaults to MAX_TIMEOUT. */
  function EffectiveTimeout(customTimeout: Option<nat>): nat
  {
    if customTimeout.Some? then customTimeout.value else MaxTimeout
  }

  /** The largest delay a browser timer keeps as given (2^31 - 1 ms). */
  const MaxTimerDelay: nat := 0x7FFF_FFFF

  /** The delay after which a browser's `setTimeout(callback, timeout)` fires:
      the delay is converted to a signed 32-bit integer, and a negative result
      means 0. */
  function TimerDelay(timeout: nat): (d: nat)
    ensures d <= MaxTimerDelay
    ensures timeout <= MaxTimerDelay ==> d == timeout
  {
    var wrapped := timeout % 0x1_0000_0000;
    if wrapped <= MaxTimerDelay then wrapped else 0
  }

  /** The timer delay wraps around: only the timeout modulo 2^32 matters. */
  lemma TimerWrapsAround(timeout: nat)
    ensures TimerDelay(timeout + 0x1_0000_0000) == TimerDelay(timeout)
    ensures TimerDelay(0x1_0000_0000 + 5000) == 5000
  {
    assert (timeout + 0x1_0000_0000) % 0x1_0000_0000 == timeout % 0x1_0000_0000;
  }

  /** Whether the invocation settles before the timer fires. An invocation that
      settles without waiting (`after == 0`, an already-settled promise) wins
      even against a 0 ms timer, because `Promise.race` settles in a microtask
      and microtasks run before any timer. An invocation that waits for a later
      task loses a tie with the timer, which was registered first. */
  predicate SettlesFirst<T>(inv: Invocation<T>, timeout: nat)
  {
    inv.Settles? && (inv.after == 0 || inv.after < TimerDelay(timeout))
  }

  /** `Promise.race` of an invocation against a timer of `timeout` ms. */
  function Race<T>(inv: Invocation<T>, timeout: nat): (o: Outcome<T>)
    ensures o.TimedOut? <==> inv.NeverSettles? || (inv.after > 0 && inv.after >= TimerDelay(timeout))
    ensures o.Ok? <==> SettlesFirst(inv, timeout) && inv.settlement.Fulfilled?
    ensures o.Ok? ==> o.value == inv.settlement.value
    ensures o.Err? ==> inv.settlement == Rejected(o.message)
  {
    if SettlesFirst(inv, timeout) then
      match inv.settlement
      case Fulfilled(v) => Ok(v)
      case Rejected(m) => Err(m)
    else
      TimedOut
  }

  /** The outcome of attempt number `n` (counting from 1), which is the n-th
      invocation of the operation. */
  function AttemptOutcome<T>(operation: nat -> Invocation<T>, timeout: nat, n: nat): Outcome<T>
    requires n >= 1
  {
    Race(operation(n - 1), timeout)
  }

  /** Among the delays a timer keeps as given, a longer timeout never turns a
      settled attempt into a timeout, and does not change how an attempt that
      settled in time ends. */
  lemma RaceMonotone<T>(inv: Invocation<T>, t1: nat, t2: nat)
    requires t1 <= t2 <= MaxTimerDelay
    ensures Race(inv, t2).TimedOut? ==> Race(inv, t1).TimedOut?
    ensures !Race(inv, t1).TimedOut? ==> Race(inv, t2) == Race(inv, t1)
  {
  }

  /** Without a custom timeout, an attempt times out exactly when its invocation
      has not settled within MAX_TIMEOUT ms. */
  lemma DefaultTimeout<T>(inv: Invocation<T>)
    ensures Race(inv, EffectiveTimeout(None)).TimedOut? <==>
              inv.NeverSettles? || inv.after >= 10000
  {
  }

  /** A timeout whose remainder modulo 2^32 is 2^31 or more overflows the
      timer, which then fires at once: every attempt that has to wait at all
      times out, so the race is not monotone in the timeout beyond
      MaxTimerDelay. */
  lemma OversizedTimeoutFiresAtOnce<T>(inv: Invocation<T>, timeout: nat)
    requires timeout % 0x1_0000_0000 > MaxTimerDelay
    ensures Race(inv, timeout).TimedOut? <==> !(inv.Settles? && inv.after == 0)
    ensures Race(inv, MaxTimerDelay + 1).TimedOut? ==> Race(inv, 0).TimedOut?
  {
    assert TimerDelay(timeout) == 0;
    assert TimerDelay(MaxTimerDelay + 1) == 0;
  }

  /** An operation that has already settled wins the race whatever the
      timeout, even 0 ms. */
  lemma SettledOperationWins<T>(s: Settlement<T>, timeout: nat)
    ensures !Race(Settles(0, s), timeout).TimedOut?
  {
  }

  // ---------------------------------------------------------------------------
  // Backoff
  // ---------------------------------------------------------------------------

  function Pow2(k: nat): (r: nat)
    ensures r >= 1
  {
    if k == 0 then 1 else 2 * Pow2(k - 1)
  }

  /** The delay slept after failed attempt number `attempt`:
      RETRY_DELAY * 2^(attempt - 1). */
  function Backoff(attempt: nat): nat
    requires attempt >= 1
  {
    RetryDelay * Pow2(attempt - 1)
  }

  /** The delays slept after the first `k` failed attempts, in order. */
  function Schedule(k: nat): (s: seq<nat>)
    ensures |s| == k
    ensures forall i :: 0 <= i < k ==> s[i] == Backoff(i + 1)
  {
    if k == 0 then [] else Schedule(k - 1) + [Backoff(k)]
  }

  /** Total time slept over a sequence of delays. */
  function TotalDelay(s: seq<nat>): nat
  {
    if s == [] then 0 else TotalDelay(s[..|s| - 1]) + s[|s| - 1]
  }

  /** Each backoff is twice the previous one, starting from RETRY_DELAY. */
  lemma BackoffDoubles(attempt: nat)
    requires attempt >= 1
    ensures Backoff(1) == RetryDelay
    ensures Backoff(attempt + 1) == 2 * Backoff(attempt)
  {
  }

  /** The first k backoff delays add up to RETRY_DELAY * (2^k - 1). */
  lemma {:induction false} ScheduleTotal(k: nat)
    ensures TotalDelay(Schedule(k)) == RetryDelay * (Pow2(k) - 1)
  {
    if k > 0 {
      ScheduleTotal(k - 1);
      assert Schedule(k)[..k - 1] == Schedule(k - 1);
    }
  }

  /** Under the default policy the delays are 2 s, 4 s, 8 s and 16 s. */
  lemma DefaultSchedule()
    ensures Schedule(MaxRetries - 1) == [2000, 4000, 8000, 16000]
    ensures TotalDelay(Schedule(MaxRetries - 1)) == 30000
  {
    ScheduleTotal(MaxRetries - 1);
  }

  // ---------------------------------------------------------------------------
  // The terminal error
  // ---------------------------------------------------------------------------

  function DigitChar(d: nat): char
    requires d < 10
  {
    "0123456789"[d]
  }

  /** Decimal rendering of a natural number, as a template literal does it. */
  function Decimal(n: nat): string
    decreases n
  {
    if n < 10 then [DigitChar(n)] else Decimal(n / 10) + [DigitChar(n % 10)]
  }

  /** The message of the error a call rejects with once every attempt failed. */
  function ExhaustedMessage(lastMessage: string): string
  {
    "Operation failed after " + Decimal(MaxRetries) + " attempts. Last error: " + lastMessage
  }

  /** The terminal message reads "... 5 attempts ..." and ends with the last
      error's message. */
  lemma ExhaustedMessageText(lastMessage: string)
    ensures ExhaustedMessage(lastMessage) ==
              "Operation failed after 5 attempts. Last error: " + lastMessage
  {
  }

  /** The terminal message determines the last error's message. */
  lemma ExhaustedMessageInjective(m1: string, m2: string)
    requires ExhaustedMessage(m1) == ExhaustedMessage(m2)
    ensures m1 == m2
  {
    var prefix := "Operation failed after 5 attempts. Last error: ";
    ExhaustedMessageText(m1);
    ExhaustedMessageText(m2);
    assert m1 == (prefix + m1)[|prefix|..];
    assert m2 == (prefix + m2)[|prefix|..];
  }

  // ---------------------------------------------------------------------------
  // The whole call, as a specification
  // ---------------------------------------------------------------------------

  /** Adds delays slept before the given part of a call. */
  function Prepend<T>(delays: seq<nat>, r: Report<T>): Report<T>
  {
    r.(delays := delays + r.delays)
  }

  lemma PrependTwice<T>(d: seq<nat>, e: seq<nat>, r: Report<T>)
    ensures Prepend(d, Prepend(e, r)) == Prepend(d + e, r)
  {
    assert d + (e + r.delays) == (d + e) + r.delays;
  }

  /** What a call does from attempt number `attempt` on. */
  function RunFrom<T>(operation: nat -> Invocation<T>, timeout: nat, attempt: nat): (r: Report<T>)
    requires 1 <= attempt <= MaxRetries
    decreases MaxRetries - attempt
    ensures attempt <= r.attempts <= MaxRetries
    ensures |r.delays| == r.attempts - attempt
    ensures forall i :: 0 <= i < |r.delays| ==> r.delays[i] == Backoff(attempt + i)
    ensures forall n :: attempt <= n < r.attempts ==> AttemptOutcome(operation, timeout, n).Failed()
    ensures r.result.Returned? ==>
              AttemptOutcome(operation, timeout, r.attempts) == Ok(r.result.value)
    ensures r.result.Thrown? ==>
              r.attempts == MaxRetries &&
              AttemptOutcome(operation, timeout, MaxRetries).Failed() &&
              r.result.message ==
                ExhaustedMessage(AttemptOutcome(operation, timeout, MaxRetries).ErrorMessage())
  {
    var o := AttemptOutcome(operation, timeout, attempt);
    if o.Ok? then
      Report(Returned(o.value), attempt, [])
    else if attempt < MaxRetries then
      Prepend([Backoff(attempt)], RunFrom(operation, timeout, attempt + 1))
    else
      Report(Thrown(ExhaustedMessage(o.ErrorMessage())), attempt, [])
  }

  /** What `executeWithRetry(operation, customTimeout)` does. */
  function Execute<T>(operation: nat -> Invocation<T>, customTimeout: Option<nat>): (r: Report<T>)
    ensures 1 <= r.attempts <= MaxRetries
    ensures r.delays == Schedule(r.attempts - 1)
    ensures r.result.Thrown? ==> r.attempts == MaxRetries
  {
    var r := RunFrom(operation, EffectiveTimeout(customTimeout), 1);
    assert r.delays == Schedule(r.attempts - 1);
    r
  }

  /** If the first k attempts fail and attempt k + 1 fulfils, the call returns
      that value after exactly k + 1 invocations and k backoff sleeps. */
  lemma SucceedsAfterFailures<T>(operation: nat -> Invocation<T>, customTimeout: Option<nat>, k: nat)
    requires k < MaxRetries
    requires forall n :: 1 <= n <= k ==>
               AttemptOutcome(operation, EffectiveTimeout(customTimeout), n).Failed()
    requires AttemptOutcome(operation, EffectiveTimeout(customTimeout), k + 1).Ok?
    ensures Execute(operation, customTimeout) ==
              Report(Returned(AttemptOutcome(operation, EffectiveTimeout(customTimeout), k + 1).value),
                     k + 1, Schedule(k))
  {
  }

  /** If every attempt fails, the call makes MAX_RETRIES invocations, sleeps
      2, 4, 8 and 16 seconds (30 s in all), and rejects with the message of
      the last failure. */
  lemma ExhaustsAfterAllFail<T>(operation: nat -> Invocation<T>, customTimeout: Option<nat>)
    requires forall n :: 1 <= n <= MaxRetries ==>
               AttemptOutcome(operation, EffectiveTimeout(customTimeout), n).Failed()
    ensures Execute(operation, customTimeout) ==
              Report(Thrown("Operation failed after 5 attempts. Last error: " +
                            AttemptOutcome(operation, EffectiveTimeout(customTimeout), MaxRetries).ErrorMessage()),
                     MaxRetries, [2000, 4000, 8000, 16000])
    ensures TotalDelay(Execute(operation, customTimeout).delays) == 30000
  {
    DefaultSchedule();
    ExhaustedMessageText(AttemptOutcome(operation, EffectiveTimeout(customTimeout), MaxRetries).ErrorMessage());
  }

  /** An operation that has already fulfilled is returned at the first attempt
      even with a 0 ms timeout. */
  lemma SettledOperationBeatsZeroTimeout<T>(operation: nat -> Invocation<T>, v: T)
    requires operation(0) == Settles(0, Fulfilled(v))
    ensures Execute(operation, Some(0)) == Report(Returned(v), 1, [])
  {
    SucceedsAfterFailures(operation, Some(0), 0);
  }

  /** With a custom timeout whose remainder modulo 2^32 is 2^31 or more, every
      attempt whose invocation has to wait times out, so such an operation
      exhausts all retries with "Operation timed out" as the last error. */
  lemma OversizedTimeoutExhausts<T>(operation: nat -> Invocation<T>, timeout: nat)
    requires timeout % 0x1_0000_0000 > MaxTimerDelay
    requires forall n :: 0 <= n < MaxRetries ==> !(operation(n).Settles? && operation(n).after == 0)
    ensures Execute(operation, Some(timeout)) ==
              Report(Thrown("Operation failed after 5 attempts. Last error: " + TimeoutMessage),
                     MaxRetries, [2000, 4000, 8000, 16000])
  {
    forall n | 1 <= n <= MaxRetries
      ensures AttemptOutcome(operation, timeout, n).TimedOut?
    {
      OversizedTimeoutFiresAtOnce(operation(n - 1), timeout);
    }
    assert AttemptOutcome(operation, timeout, MaxRetries).ErrorMessage() == TimeoutMessage;
    ExhaustsAfterAllFail(operation, Some(timeout));
  }

  /** The outcome with a timeout replaced by the error the timer rejects with. */
  function AsRejection<T>(o: Outcome<T>): Outcome<T>
  {
    if o.TimedOut? then Err(TimeoutMessage) else o
  }

  /** A timed-out attempt is handled exactly like a rejection with message
      "Operation timed out": two runs whose attempts agree once timeouts are
      read as such rejections behave identically. */
  lemma TimeoutIsRejection<T>(op1: nat -> Invocation<T>, t1: nat,
                              op2: nat -> Invocation<T>, t2: nat, attempt: nat)
    requires 1 <= attempt <= MaxRetries
    requires forall n :: attempt <= n <= MaxRetries ==>
               AsRejection(AttemptOutcome(op1, t1, n)) == AsRejection(AttemptOutcome(op2, t2, n))
    ensures RunFrom(op1, t1, attempt) == RunFrom(op2, t2, attempt)
  {
    // RunFrom's contract determines the whole report from the failed/fulfilled
    // status of each attempt and the last failure's message, and AsRejection
    // preserves both.
  }

  // ---------------------------------------------------------------------------
  // The executor
  // ---------------------------------------------------------------------------

  /** The module's connection state. */
  class Connection {
    /** Meant as a failure-streak counter; it is only ever reset. */
    var connectionAttempts: int

    /** The counter starts at 0 and is never incremented, so it stays 0. */
    ghost predicate Valid()
      reads this
    {
      connectionAttempts == 0
    }

    constructor ()
      ensures Valid()
    {
      connectionAttempts := 0;
    }

    /** `executeWithRetry(operation, customTimeout)`. `operation(i)` is how the
        (i + 1)-th invocation behaves; `attempts` counts the invocations made
        and `delays` logs the backoff sleeps. */
    method ExecuteWithRetry<T>(operation: nat -> Invocation<T>, customTimeout: Option<nat>)
      returns (result: CallResult<T>, ghost attempts: nat, ghost delays: seq<nat>)
      modifies this
      ensures Report(result, attempts, delays) == Execute(operation, customTimeout)
      ensures connectionAttempts == if result.Returned? then 0 else old(connectionAttempts)
      ensures old(Valid()) ==> Valid()
    {
      var timeout := EffectiveTimeout(customTimeout);
      var lastError: Option<string> := None;
      ghost var spec := RunFrom(operation, timeout, 1);
      attempts, delays := 0, [];
      var attempt := 1;
      while attempt <= MaxRetries
        invariant 1 <= attempt <= MaxRetries + 1
        invariant attempts == attempt - 1
        invariant connectionAttempts == old(connectionAttempts)
        invariant attempt <= MaxRetries ==>
                    spec == Prepend(delays, RunFrom(operation, timeout, attempt))
        invariant attempt > MaxRetries ==>
                    lastError.Some? &&
                    spec == Report(Thrown(ExhaustedMessage(lastError.value)), MaxRetries, delays)
      {
        var outcome := Race(operation(attempt - 1), timeout);
        attempts := attempts + 1;
        if outcome.Ok? {
          connectionAttempts := 0;
          result := Returned(outcome.value);
          return;
        }
        lastError := Some(outcome.ErrorMessage());
        if attempt < MaxRetries {
          var backoffDelay := RetryDelay * Pow2(attempt - 1);
          PrependTwice(delays, [backoffDelay], RunFrom(operation, timeout, attempt + 1));
          delays := delays + [backoffDelay];
        }
        attempt := attempt + 1;
      }
      result := Thrown(ExhaustedMessage(lastError.value));
    }
  }
}
