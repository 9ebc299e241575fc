/** The timer fallbacker: retries with capped exponential backoff. */
module Backoff {
  import opened Basics

  function Pow2(k: nat): (r: nat)
    ensures r >= 1
  {
    if k == 0 then 1 else 2 * Pow2(k - 1)
  }

  /** The latency after one more failure. */
  function Doubled(latency: int, max: int): int { Min(2 * latency, max) }

  /** The length of sleep number `k`, counted from zero: the first is not capped. */
  function Sleep(base: int, max: int, k: nat): int {
    if k == 0 then base else Min(base * Pow2(k), max)
  }

  lemma SleepStep(base: nat, max: nat, k: nat)
    ensures Doubled(Sleep(base, max, k), max) == Sleep(base, max, k + 1)
  {
    assert base * Pow2(k + 1) == 2 * (base * Pow2(k));
  }

  /** FallBack, where `accepts(k)` is the result of retry number `k`. It retries after each sleep
      until the first success and at most one time less than the attempts; for settings that are
      not negative the sleeps double up to the cap. */
  method FallBack(maxAttempts: int, base: int, max: int, accepts: nat -> bool)
    returns (ok: bool, sleeps: seq<int>)
    ensures |sleeps| <= if maxAttempts <= 1 then 0 else maxAttempts - 1
    ensures ok <==> |sleeps| > 0 && accepts(|sleeps| - 1)
    ensures forall k :: 0 <= k < |sleeps| - 1 ==> !accepts(k)
    ensures !ok ==> |sleeps| == if maxAttempts <= 1 then 0 else maxAttempts - 1
    ensures |sleeps| > 0 ==> sleeps[0] == base
    ensures forall k :: 0 <= k < |sleeps| - 1 ==> sleeps[k + 1] == Min(2 * sleeps[k], max)
    ensures base >= 0 && max >= 0 ==> forall k :: 0 <= k < |sleeps| ==> sleeps[k] == Sleep(base, max, k)
    ensures base >= 0 && max >= 0 ==> forall k :: 0 <= k < |sleeps| ==> sleeps[k] <= if base >= max then base else max
  {
    sleeps := [];
    var latency := base;
    var i := 1;
    while i < maxAttempts
      invariant |sleeps| == i - 1 && (i <= maxAttempts || i == 1)
      invariant forall k :: 0 <= k < |sleeps| ==> !accepts(k)
      invariant i == 1 ==> latency == base
      invariant |sleeps| > 0 ==> sleeps[0] == base && latency == Min(2 * sleeps[|sleeps| - 1], max)
      invariant forall k :: 0 <= k < |sleeps| - 1 ==> sleeps[k + 1] == Min(2 * sleeps[k], max)
      invariant base >= 0 && max >= 0 ==> latency == Sleep(base, max, i - 1)
      invariant base >= 0 && max >= 0 ==> forall k :: 0 <= k < |sleeps| ==> sleeps[k] == Sleep(base, max, k)
    {
      sleeps := sleeps + [latency];
      if !accepts(i - 1) {
        if base >= 0 && max >= 0 {
          SleepStep(base, max, i - 1);
        }
        latency := latency * 2;
        if latency > max {
          latency := max;
        }
      } else {
        return true, sleeps;
      }
      i := i + 1;
    }
    return false, sleeps;
  }
}
