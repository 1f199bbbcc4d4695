/** The reconnect loop of the event keeper's `main`
    (src/bin/event-keeper/main.rs): after every end of a subscription,
    clean or failed, it sleeps `backoff` and then doubles it, capped at
    30 seconds. The delay is never reset. Durations are whole seconds. */
module Reconnect {

  const InitialBackoffSecs: nat := 1
  const MaxBackoffSecs: nat := 30

  /** How `run_subscription` came back: the stream closed, or an error. */
  datatype SubscriptionEnd = Closed | Failed(error: string)

  function Min(a: int, b: int): int {
    if a <= b then a else b
  }

  function Pow2(n: nat): (r: nat)
    ensures r >= 1
  {
    if n == 0 then 1 else 2 * Pow2(n - 1)
  }

  /** The delay slept after the i-th subscription end, counting from 0:
      2^i seconds while that is below the cap, then the cap. */
  function Delay(i: nat): (r: nat)
    ensures InitialBackoffSecs <= r <= MaxBackoffSecs
  {
    if i < 5 then SmallPowers(); Pow2(i) else MaxBackoffSecs
  }

  lemma SmallPowers()
    ensures Pow2(0) == 1 && Pow2(1) == 2 && Pow2(2) == 4 && Pow2(3) == 8 && Pow2(4) == 16
  {
    assert Pow2(1) == 2 * Pow2(0);
    assert Pow2(2) == 2 * Pow2(1);
    assert Pow2(3) == 2 * Pow2(2);
    assert Pow2(4) == 2 * Pow2(3);
  }

  /** `Delay` is the doubling-with-cap rule of the loop, started at 1. */
  lemma DelayDoubles(i: nat)
    ensures Delay(0) == InitialBackoffSecs
    ensures Delay(i + 1) == Min(2 * Delay(i), MaxBackoffSecs)
  {
    SmallPowers();
  }

  /** The delay never shrinks. */
  lemma {:induction false} DelayMonotone(i: nat, j: nat)
    requires i <= j
    ensures Delay(i) <= Delay(j)
    decreases j - i
  {
    if i < j {
      DelayDoubles(i);
      DelayMonotone(i + 1, j);
    }
  }

  /** The schedule is 1, 2, 4, 8, 16 and then 30 for good. */
  lemma DelayValues(i: nat)
    ensures Delay(0) == 1 && Delay(1) == 2 && Delay(2) == 4 && Delay(3) == 8 && Delay(4) == 16
    ensures i >= 5 ==> Delay(i) == 30
  {
    SmallPowers();
  }

  /** The reconnect loop of `main`, over the first `|ends|` subscription
      ends: the delays it sleeps, in order. Whether an end was clean or an
      error makes no difference. */
  method ReconnectDelays(ends: seq<SubscriptionEnd>) returns (sleeps: seq<nat>)
    ensures |sleeps| == |ends|
    ensures forall i :: 0 <= i < |ends| ==> sleeps[i] == Delay(i)
  {
    var backoff := InitialBackoffSecs;
    sleeps := [];
    var i := 0;
    while i < |ends|
      invariant 0 <= i <= |ends|
      invariant |sleeps| == i
      invariant forall j :: 0 <= j < i ==> sleeps[j] == Delay(j)
      invariant backoff == Delay(i)
    {
      // either way, the end is only logged
      sleeps := sleeps + [backoff];
      DelayDoubles(i);
      backoff := Min(backoff * 2, MaxBackoffSecs);
      i := i + 1;
    }
  }
}
