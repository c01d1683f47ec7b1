/** The scale position of src/core/player.c: which bytes of the output have passed scale_samples, and how often. */
module Scaling {

  /** How often the byte `k` places ahead of the consumer has been scaled; `times` lists the bytes scaled at all. */
  function TimesAt(times: seq<nat>, k: nat): nat { if k < |times| then times[k] else 0 }

  /** scale_samples on `count` bytes at the consumer position, the first `ahead` of which it skips. */
  function Rescaled(times: seq<nat>, ahead: nat, count: nat): seq<nat> {
    if ahead >= count then times else RescaledTo(times, ahead, count, if |times| < count then count else |times|)
  }

  function RescaledTo(times: seq<nat>, ahead: nat, count: nat, n: nat): seq<nat> {
    if n == 0 then []
    else RescaledTo(times, ahead, count, n - 1) + [TimesAt(times, n - 1) + if ahead <= n - 1 < count then 1 else 0]
  }

  lemma {:induction false} RescaledToAt(times: seq<nat>, ahead: nat, count: nat, n: nat)
    ensures var r := RescaledTo(times, ahead, count, n);
            |r| == n && forall k :: 0 <= k < n ==> r[k] == TimesAt(times, k) + if ahead <= k < count then 1 else 0
  {
    if n == 0 {
    } else {
      RescaledToAt(times, ahead, count, n - 1);
    }
  }

  /** What is left of `times` after `n` bytes went to the output. */
  function Consumed(times: seq<nat>, n: nat): seq<nat> { if n <= |times| then times[n..] else [] }

  function HandedOut(times: seq<nat>, n: nat): seq<nat> {
    if n == 0 then [] else HandedOut(times, n - 1) + [TimesAt(times, n - 1)]
  }

  lemma {:induction false} HandedOutAt(times: seq<nat>, n: nat)
    ensures |HandedOut(times, n)| == n && forall k :: 0 <= k < n ==> HandedOut(times, n)[k] == TimesAt(times, k)
  {
    if n == 0 {
    } else {
      HandedOutAt(times, n - 1);
    }
  }

  function Max(a: int, b: int): int { if a < b then b else a }

  /** The bytes ahead while scaling is enabled: `stale` were scaled before it was last enabled, `ahead` since. */
  ghost predicate Ahead(times: seq<nat>, stale: nat, ahead: nat) {
    && |times| == Max(stale, ahead)
    && forall k :: 0 <= k < |times| ==>
         times[k] >= 1 && (k >= stale ==> times[k] == 1) && (k < stale && k < ahead ==> times[k] >= 2)
  }

  /** Bytes went out scaled exactly once, except that the first `stale` of them went out scaled more often. */
  predicate OnceUnlessStale(out: seq<nat>, stale: nat) {
    forall k :: 0 <= k < |out| ==> if k < stale then out[k] >= 2 else out[k] == 1
  }

  predicate OnesAppended(before: seq<nat>, after: seq<nat>) {
    |before| <= |after| && after[..|before|] == before && forall k :: |before| <= k < |after| ==> after[k] == 1
  }

  /** Scaling keeps the account. */
  lemma RescaleAhead(times: seq<nat>, stale: nat, ahead: nat, size: nat)
    requires Ahead(times, stale, ahead)
    ensures Ahead(Rescaled(times, ahead, size), stale, Max(ahead, size))
  {
    RescaledToAt(times, ahead, size, Max(|times|, size));
  }

  /** So does handing out scaled bytes, and a byte goes out scaled exactly once iff it was not stale. */
  lemma HandOut(times: seq<nat>, stale: nat, ahead: nat, n: nat)
    requires Ahead(times, stale, ahead) && n <= ahead
    ensures Ahead(Consumed(times, n), Max(stale - n, 0), ahead - n) && OnceUnlessStale(HandedOut(times, n), stale)
  {
    var out, left := HandedOut(times, n), Consumed(times, n);
    HandedOutAt(times, n);
    forall k | 0 <= k < |left|
      ensures left[k] >= 1 && (k >= Max(stale - n, 0) ==> left[k] == 1)
              && (k < stale - n && k < ahead - n ==> left[k] >= 2)
    {
      assert left[k] == times[n + k];
    }
  }

  lemma StillScaled(times: seq<nat>, stale: nat, ahead: int, n: nat)
    requires |times| == Max(stale, ahead) && forall k :: 0 <= k < |times| ==> times[k] >= 1
    ensures |Consumed(times, n)| == Max(Max(stale - n, 0), ahead - n)
    ensures forall k :: 0 <= k < |Consumed(times, n)| ==> Consumed(times, n)[k] >= 1
  {
    if n <= |times| {
      forall k | 0 <= k < |times| - n ensures times[n..][k] >= 1 { assert times[n..][k] == times[n + k]; }
    }
  }
}
