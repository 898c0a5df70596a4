/**
 Retries with exponential back-off. What the environment does (the outcome of each call, when
 the context is cancelled, the random jitter) is given as a function of the attempt.
 */
module Retry {
  import opened Wrappers

  /** One call of the operation: its value and, when it failed, the text of the error. */
  datatype Outcome<T> = Outcome(value: T, error: Option<string>)

  datatype Attempt<T> = Attempt(
    cancelledBefore: bool,          // the context is already cancelled when the attempt starts
    outcome: Outcome<T>,
    jitter: int,                    // drawn below the base delay
    cancelledDuring: bool)          // the context ends the wait after the attempt

  datatype Answer<T> = Returned(outcome: Outcome<T>) | Cancelled | Exhausted(error: Option<string>)

  // ---------------------------------------------------------------------------
  // Which errors are transient.

  predicate OccursAt(text: string, part: string, i: int) {
    0 <= i <= |text| - |part| && text[i..i + |part|] == part
  }

  predicate Contains(text: string, part: string) {
    exists i | 0 <= i <= |text| :: OccursAt(text, part, i)
  }

  const TRANSIENT: seq<string> :=
    ["driver: bad connection", "sql: database is closed", "connection reset", "broken pipe", "57P01"]

  /** The predefined bad-connection error carries the first of these texts. */
  predicate IsTransientError(error: Option<string>) {
    error.Some? && exists i | 0 <= i < |TRANSIENT| :: Contains(error.value, TRANSIENT[i])
  }

  lemma ContainsWithin(before: string, text: string, after: string, part: string)
    requires Contains(text, part)
    ensures Contains(before + text + after, part)
  {
    var i :| 0 <= i <= |text| && OccursAt(text, part, i);
    var whole, j := before + text + after, |before| + i;
    assert |whole| == |before| + |text| + |after|;
    assert whole[j..j + |part|] == text[i..i + |part|];
    assert OccursAt(whole, part, j);
  }

  /** Wrapping an error in more text does not hide that it is transient. */
  lemma WrappingStaysTransient(before: string, text: string, after: string)
    requires IsTransientError(Some(text))
    ensures IsTransientError(Some(before + text + after))
  {
    var i :| 0 <= i < |TRANSIENT| && Contains(text, TRANSIENT[i]);
    ContainsWithin(before, text, after, TRANSIENT[i]);
  }

  /** Exactly the errors whose text has one of five parts are transient. */
  lemma TransientTexts(error: Option<string>)
    ensures IsTransientError(error) <==>
              && error.Some?
              && (Contains(error.value, "driver: bad connection") || Contains(error.value, "sql: database is closed") ||
                  Contains(error.value, "connection reset") || Contains(error.value, "broken pipe") ||
                  Contains(error.value, "57P01"))
  {
    assert |TRANSIENT| == 5 && TRANSIENT[0] == "driver: bad connection" && TRANSIENT[1] == "sql: database is closed" &&
           TRANSIENT[2] == "connection reset" && TRANSIENT[3] == "broken pipe" && TRANSIENT[4] == "57P01";
  }

  lemma ContainsPart(before: string, part: string, after: string)
    ensures Contains(before + part + after, part)
  {
    assert OccursAt(part, part, 0);
    ContainsWithin(before, part, after, part);
  }

  /** A lost connection and a server that shuts down are retried, whatever stands around the text. */
  lemma Retried(before: string, part: string, after: string)
    requires part == "driver: bad connection" || part == "sql: database is closed" ||
             part == "connection reset" || part == "broken pipe" || part == "57P01"
    ensures IsTransientError(Some(before + part + after))
  {
    ContainsPart(before, part, after);
    TransientTexts(Some(before + part + after));
  }

  lemma AbsentCharacter(text: string, part: string, k: nat)
    requires k < |part| && part[k] !in text
    ensures !Contains(text, part)
  {
    forall i | 0 <= i <= |text| ensures !OccursAt(text, part, i) {
      if i <= |text| - |part| {
        assert text[i..i + |part|][k] == text[i + k];
      }
    }
  }

  /** Every transient text has an "o" or a "7": a duplicate key, for one, is never retried. */
  lemma NotRetried(text: string)
    ensures IsTransientError(Some(text)) ==> 'o' in text || '7' in text
    ensures !IsTransientError(Some("duplicate key value"))
    ensures !IsTransientError(None)
  {
    WithoutOr7("duplicate key value");
    if 'o' !in text && '7' !in text {
      WithoutOr7(text);
    }
  }

  lemma WithoutOr7(text: string)
    requires 'o' !in text && '7' !in text
    ensures !IsTransientError(Some(text))
  {
    TransientTexts(Some(text));
    AbsentCharacter(text, "driver: bad connection", 13);
    AbsentCharacter(text, "sql: database is closed", 19);
    AbsentCharacter(text, "connection reset", 1);
    AbsentCharacter(text, "broken pipe", 2);
    AbsentCharacter(text, "57P01", 1);
  }

  // ---------------------------------------------------------------------------
  // Delays.

  function Pow2(n: nat): (p: nat)
    ensures p >= 1
  {
    if n == 0 then 1 else 2 * Pow2(n - 1)
  }

  /** The jitter is drawn in [0, base) when the base is positive; otherwise there is none. */
  ghost predicate Jitters<T>(env: nat -> Attempt<T>, base: int) {
    forall i :: if base > 0 then 0 <= env(i).jitter < base else env(i).jitter == 0
  }

  function Delay<T>(env: nat -> Attempt<T>, base: int, i: nat): int {
    Pow2(i) * base + env(i).jitter
  }

  function TotalDelay<T>(env: nat -> Attempt<T>, base: int, n: nat): int {
    if n == 0 then 0 else TotalDelay(env, base, n - 1) + Delay(env, base, n - 1)
  }

  function JitterSum<T>(env: nat -> Attempt<T>, n: nat): int {
    if n == 0 then 0 else JitterSum(env, n - 1) + env(n - 1).jitter
  }

  lemma Distribute(a: int, b: int, base: int)
    ensures (a + b) * base == a * base + b * base
  {
  }

  /** After n waits the total delay is (2^n - 1) * base and the jitters drawn. */
  lemma {:induction false} DelayIs<T>(env: nat -> Attempt<T>, base: int, n: nat)
    ensures TotalDelay(env, base, n) == (Pow2(n) - 1) * base + JitterSum(env, n)
  {
    if n > 0 {
      DelayIs(env, base, n - 1);
      var p := Pow2(n - 1);
      Distribute(p - 1, p, base);
      assert Pow2(n) - 1 == (p - 1) + p;
    }
  }

  lemma {:induction false} JittersBelow<T>(env: nat -> Attempt<T>, base: int, n: nat)
    requires base > 0 && Jitters(env, base)
    ensures 0 <= JitterSum(env, n) <= n * base - n
  {
    if n > 0 {
      JittersBelow(env, base, n - 1);
      assert 0 <= env(n - 1).jitter < base;
      Distribute(n - 1, 1, base);
    }
  }

  /** So it is between (2^n - 1) * base and (2^n - 1 + n) * base - n. */
  lemma DelayBound<T>(env: nat -> Attempt<T>, base: int, n: nat)
    requires base > 0 && Jitters(env, base)
    ensures (Pow2(n) - 1) * base <= TotalDelay(env, base, n) <= (Pow2(n) - 1 + n) * base - n
  {
    DelayIs(env, base, n);
    JittersBelow(env, base, n);
    Distribute(Pow2(n) - 1, n, base);
  }

  const INT64: int := 0x8000_0000_0000_0000

  lemma {:induction false} Pow2Grows(m: nat, n: nat)
    requires m <= n
    ensures Pow2(m) <= Pow2(n)
  {
    if m < n {
      Pow2Grows(m, n - 1);
    }
  }

  /** When the last factor fits, no delay of the loop leaves the range of a signed 64-bit duration. */
  lemma DelayFits<T>(env: nat -> Attempt<T>, base: int, maxRetries: nat, i: nat)
    requires base >= 0 && Jitters(env, base) && i < maxRetries && (Pow2(maxRetries - 1) + 1) * base <= INT64
    ensures 0 <= Delay(env, base, i) < INT64
  {
    Pow2Grows(i, maxRetries - 1);
    var p, q := Pow2(i), Pow2(maxRetries - 1);
    assert if base > 0 then 0 <= env(i).jitter < base else env(i).jitter == 0;
    Product(p, q, base);
  }

  lemma Product(p: nat, q: nat, base: int)
    requires p <= q && base >= 0
    ensures 0 <= p * base <= q * base && (q + 1) * base == q * base + base
  {
  }

  // ---------------------------------------------------------------------------
  // The loop.

  ghost predicate Uncancelled<T>(a: Attempt<T>) {
    !a.cancelledBefore && !a.cancelledDuring
  }

  /** The first n attempts all failed with a transient error, and no wait between them was cut short. */
  ghost predicate AllRetried<T>(env: nat -> Attempt<T>, n: nat) {
    forall i :: 0 <= i < n ==> IsTransientError(env(i).outcome.error) && Uncancelled(env(i))
  }

  ghost predicate Justified<T>(env: nat -> Attempt<T>, maxRetries: int, answer: Answer<T>, calls: nat, waits: nat) {
    match answer
    case Returned(outcome) =>
      && calls == waits + 1 && waits <= maxRetries
      && !env(waits).cancelledBefore && outcome == env(waits).outcome && !IsTransientError(outcome.error)
    case Cancelled =>
      || (calls == waits && waits <= maxRetries && env(waits).cancelledBefore)
      || (calls == waits + 1 && waits < maxRetries && env(waits).cancelledDuring &&
          !env(waits).cancelledBefore && IsTransientError(env(waits).outcome.error))
    case Exhausted(error) =>
      if maxRetries < 0 then calls == 0 && waits == 0 && error.None?
      else calls == maxRetries + 1 && waits == maxRetries && !env(waits).cancelledBefore &&
           error == env(waits).outcome.error && IsTransientError(error)
  }

  method RetryExec<T>(maxRetries: int, base: int, env: nat -> Attempt<T>)
    returns (answer: Answer<T>, calls: nat, waits: nat, delay: int)
    ensures AllRetried(env, waits)
    ensures Justified(env, maxRetries, answer, calls, waits)
    ensures delay == TotalDelay(env, base, waits)
  {
    calls, waits, delay := 0, 0, 0;
    var lastErr := None;
    var attempt := 0;
    while attempt <= maxRetries
      invariant 0 <= attempt && (maxRetries < 0 ==> attempt == 0)
      invariant attempt <= maxRetries ==> calls == attempt && waits == attempt
      invariant 0 <= maxRetries < attempt ==>
                  && attempt == maxRetries + 1 && calls == attempt && waits == maxRetries
                  && !env(waits).cancelledBefore && lastErr == env(waits).outcome.error && IsTransientError(lastErr)
      invariant maxRetries < 0 ==> calls == 0 && waits == 0 && lastErr.None?
      invariant AllRetried(env, waits)
      invariant delay == TotalDelay(env, base, waits)
    {
      var now := env(attempt);
      if now.cancelledBefore {
        return Cancelled, calls, waits, delay;
      }
      calls := calls + 1;
      if now.outcome.error.None? {
        return Returned(now.outcome), calls, waits, delay;
      }
      if !IsTransientError(now.outcome.error) {
        return Returned(now.outcome), calls, waits, delay;
      }
      lastErr := now.outcome.error;
      if attempt < maxRetries {
        if now.cancelledDuring {
          return Cancelled, calls, waits, delay;
        }
        delay := delay + Delay(env, base, attempt);
        waits := waits + 1;
      }
      attempt := attempt + 1;
    }
    answer := Exhausted(lastErr);
  }

  /**
   What any justified answer means: at most maxRetries + 1 calls; without cancellation, the
   outcome of the first attempt that does not fail transiently, when that attempt is allowed,
   and else the last transient error.
   */
  lemma OutcomeIsFirst<T>(env: nat -> Attempt<T>, maxRetries: nat, answer: Answer<T>, calls: nat, waits: nat,
      first: nat)
    requires AllRetried(env, waits) && Justified(env, maxRetries, answer, calls, waits)
    requires forall i :: 0 <= i <= maxRetries ==> Uncancelled(env(i))
    requires forall i :: 0 <= i < first && i <= maxRetries ==> IsTransientError(env(i).outcome.error)
    requires first <= maxRetries ==> !IsTransientError(env(first).outcome.error)
    ensures calls <= maxRetries + 1
    ensures first <= maxRetries ==> answer == Returned(env(first).outcome) && calls == first + 1
    ensures first > maxRetries ==> answer == Exhausted(env(maxRetries).outcome.error) && calls == maxRetries + 1
  {
    assert waits <= maxRetries;
    assert Uncancelled(env(waits));
  }

  /**
   The answer in every environment. Let `last` be the first attempt that is cut short before or
   during its wait, that does not fail transiently, or that is the last one allowed: the loop
   ends there, and says why.
   */
  lemma AnswerIs<T>(env: nat -> Attempt<T>, maxRetries: nat, answer: Answer<T>, calls: nat, waits: nat, last: nat)
    requires AllRetried(env, waits) && Justified(env, maxRetries, answer, calls, waits)
    requires forall i :: 0 <= i < last ==>
               !env(i).cancelledBefore && !env(i).cancelledDuring && IsTransientError(env(i).outcome.error)
    requires last == maxRetries || (last < maxRetries &&
               (env(last).cancelledBefore || env(last).cancelledDuring || !IsTransientError(env(last).outcome.error)))
    ensures waits == last
    ensures if env(last).cancelledBefore then answer == Cancelled && calls == last
            else
              && calls == last + 1
              && answer == if !IsTransientError(env(last).outcome.error) then Returned(env(last).outcome)
                           else if last < maxRetries then Cancelled
                           else Exhausted(env(last).outcome.error)
  {
  }
}
