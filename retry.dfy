/** `RetryTransport.RoundTrip`: the request is sent up to `retries + 1`
    times; transport errors and 5xx responses are retried, a 5xx after a
    back-off of 2^i seconds on zero-based attempt i; any other response ends
    the loop. The wrapped transport is a function from the attempt number to
    its outcome, and the sleeping is a ghost total delay. */
module Retry {
  import opened Common

  /** What one call of the wrapped transport gives. */
  datatype Attempt = TransportError(msg: string) | Response(code: int)

  /** A 5xx response, which is retried after a back-off. */
  predicate ServerError(a: Attempt) {
    a.Response? && 500 <= a.code < 600
  }

  /** An attempt the loop does not stop at. */
  predicate Retried(a: Attempt) {
    a.TransportError? || ServerError(a)
  }

  /** The (response, error) pair that an attempt leaves in the loop's variables. */
  function Outcome(a: Attempt): (Option<int>, GoError) {
    match a
    case TransportError(msg) => (None, Error(msg))
    case Response(code) => (Some(code), Nil)
  }

  function Pow2(i: nat): (p: nat)
    ensures p >= 1
  {
    if i == 0 then 1 else 2 * Pow2(i - 1)
  }

  /** Seconds slept over the first `n` attempts: 2^i after each 5xx on
      attempt i. */
  function Backoff(transport: nat -> Attempt, n: nat): nat {
    if n == 0 then 0
    else Backoff(transport, n - 1) + (if ServerError(transport(n - 1)) then Pow2(n - 1) else 0)
  }

  /** The attempt loop. `calls` counts the calls of the wrapped transport and
      `delay` the seconds slept. */
  method RoundTrip(retries: int, transport: nat -> Attempt)
    returns (resp: Option<int>, err: GoError, ghost calls: nat, ghost delay: nat)
    ensures retries < 0 ==> calls == 0 && resp == None && err == Nil
    ensures retries >= 0 ==> 0 < calls <= retries + 1 && (resp, err) == Outcome(transport(calls - 1))
    ensures forall j :: 0 <= j < calls - 1 ==> Retried(transport(j))
    ensures retries >= 0 && calls < retries + 1 ==> !Retried(transport(calls - 1))
    ensures delay == Backoff(transport, calls)
  {
    resp, err := None, Nil;
    calls, delay := 0, 0;
    var i := 0;
    while i <= retries
      invariant 0 <= i && (if retries >= 0 then i <= retries + 1 else i == 0)
      invariant calls == i && delay == Backoff(transport, i)
      invariant i == 0 ==> resp == None && err == Nil
      invariant i > 0 ==> (resp, err) == Outcome(transport(i - 1))
      invariant forall j :: 0 <= j < i ==> Retried(transport(j))
      decreases retries - i
    {
      var outcome := Outcome(transport(i));
      calls := calls + 1;
      resp, err := outcome.0, outcome.1;
      if err != Nil {
        i := i + 1;
        continue;
      }
      if 500 <= resp.value < 600 {
        delay := delay + Pow2(i);
        i := i + 1;
        continue;
      }
      break;
    }
  }

  /** 5xx answers on the first `n` attempts cost 2^n - 1 seconds. */
  lemma {:induction false} BackoffOfServerErrors(transport: nat -> Attempt, n: nat)
    requires forall j :: 0 <= j < n ==> ServerError(transport(j))
    ensures Backoff(transport, n) == Pow2(n) - 1
  {
    if n > 0 {
      BackoffOfServerErrors(transport, n - 1);
    }
  }

  /** When every attempt is a 5xx, the loop runs to its bound: `retries + 1`
      attempts, 2^(retries+1) - 1 seconds of back-off, at least 2^retries. */
  lemma AllServerErrorsDelay(retries: nat, transport: nat -> Attempt)
    requires forall j :: 0 <= j <= retries ==> ServerError(transport(j))
    ensures Backoff(transport, retries + 1) == Pow2(retries + 1) - 1
    ensures Backoff(transport, retries + 1) >= Pow2(retries)
  {
    BackoffOfServerErrors(transport, retries + 1);
  }

  /** Nanoseconds per second, and the largest `time.Duration` (an int64 count
      of nanoseconds). */
  const SecondNs := 1_000_000_000
  const MaxDuration := 0x7fff_ffff_ffff_ffff

  lemma {:induction false} Pow2Monotone(i: nat, j: nat)
    requires i <= j
    ensures Pow2(i) <= Pow2(j)
    decreases j
  {
    if i < j {
      Pow2Monotone(i, j - 1);
    }
  }

  lemma {:induction false} Pow2Add(a: nat, b: nat)
    ensures Pow2(a + b) == Pow2(a) * Pow2(b)
    decreases b
  {
    if b > 0 {
      Pow2Add(a, b - 1);
      assert Pow2(a + b) == 2 * Pow2(a + b - 1);
    }
  }

  /** The back-off of attempt i, 2^i seconds, fits a `time.Duration` up to
      attempt 33 and overflows it from attempt 34 on. */
  lemma DelayFitsDuration(i: nat)
    ensures i <= 33 ==> Pow2(i) * SecondNs <= MaxDuration
    ensures i >= 34 ==> Pow2(i) * SecondNs > MaxDuration
  {
    Pow2Add(2, 2);
    Pow2Add(4, 4);
    Pow2Add(8, 8);
    Pow2Add(16, 16);
    assert Pow2(32) == 0x1_0000_0000;
    assert Pow2(34) == 2 * Pow2(33) == 0x4_0000_0000;
    if i <= 33 {
      Pow2Monotone(i, 33);
    } else {
      Pow2Monotone(34, i);
    }
  }
}

