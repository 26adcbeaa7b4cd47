/**
 * `SecurityUtils.checkRateLimit`: a sliding-window counter per action,
 * kept as a list of millisecond timestamps under `rate_limit_<action>`.
 */
module RateLimit {
  import opened JsString
  import opened Storage

  const PREFIX: JsString := ['r' as int, 'a' as int, 't' as int, 'e' as int, '_' as int,
                             'l' as int, 'i' as int, 'm' as int, 'i' as int, 't' as int, '_' as int]

  /** The storage key `rate_limit_${action}`. */
  function RateKey(action: JsString): (k: JsString)
    ensures |k| == |PREFIX| + |action| && k[..|PREFIX|] == PREFIX && k[|PREFIX|..] == action
  {
    PREFIX + action
  }

  /** The timestamps `t` with `now - t < window`, in stored order. */
  function Recent(attempts: seq<int>, now: int, window: int): (r: seq<int>)
    ensures |r| <= |attempts|
    ensures forall t :: t in r <==> t in attempts && now - t < window
    decreases |attempts|
  {
    if attempts == [] then []
    else
      var rest := Recent(attempts[..|attempts| - 1], now, window);
      var t := attempts[|attempts| - 1];
      assert attempts == attempts[..|attempts| - 1] + [t];
      if now - t < window then rest + [t] else rest
  }

  /**
   * The filter keeps every copy of a timestamp inside the window and drops
   * every copy of one outside it, so the count that decides the answer
   * counts repeated timestamps.
   */
  lemma {:induction false} RecentCounts(attempts: seq<int>, now: int, window: int)
    ensures forall t ::
      multiset(Recent(attempts, now, window))[t] == if now - t < window then multiset(attempts)[t] else 0
    decreases |attempts|
  {
    if attempts != [] {
      var prefix, t := attempts[..|attempts| - 1], attempts[|attempts| - 1];
      RecentCounts(prefix, now, window);
      assert attempts == prefix + [t];
    }
  }

  /** The bucket as the check reads it: absent or unparsable text counts as `[]`. */
  function Bucket(buckets: map<JsString, Slot<seq<int>>>, key: JsString): seq<int> {
    if key in buckets then ParsedOrEmpty(buckets[key], []) else []
  }

  /** The answer of one check on a bucket. */
  function Allowed(attempts: seq<int>, maxAttempts: int, window: int, now: int): bool {
    |Recent(attempts, now, window)| < maxAttempts
  }

  /** The bucket after one check: the kept timestamps plus `now` when allowed, the old bucket otherwise. */
  function After(attempts: seq<int>, maxAttempts: int, window: int, now: int): seq<int> {
    if Allowed(attempts, maxAttempts, window, now) then Recent(attempts, now, window) + [now] else attempts
  }

  /**
   * `checkRateLimit(action, maxAttempts, timeWindow)` at time `now`. A
   * refusal leaves the store as it was; an acceptance writes the kept
   * timestamps plus `now`, unless the write fails (`writeOk` false), in
   * which case the store is unchanged and the answer is still true. No other
   * key is touched.
   */
  method CheckRateLimit(store: LocalStorage, action: JsString, maxAttempts: int, timeWindow: int, now: int, writeOk: bool)
    returns (allowed: bool)
    modifies store
    ensures allowed == Allowed(Bucket(old(store.rateBuckets), RateKey(action)), maxAttempts, timeWindow, now)
    ensures store.rateBuckets ==
      if allowed && writeOk
      then old(store.rateBuckets)[RateKey(action) := Holds(After(Bucket(old(store.rateBuckets), RateKey(action)), maxAttempts, timeWindow, now))]
      else old(store.rateBuckets)
    ensures store.hashes == old(store.hashes) && store.approved == old(store.approved)
  {
    var key := RateKey(action);
    var attempts: seq<int>;
    if key in store.rateBuckets && store.rateBuckets[key].Holds? {
      attempts := store.rateBuckets[key].value;
    } else {
      attempts := [];
    }
    var validAttempts := Recent(attempts, now, timeWindow);
    if |validAttempts| >= maxAttempts {
      return false;
    }
    validAttempts := validAttempts + [now];
    if writeOk {
      store.rateBuckets := store.rateBuckets[key := Holds(validAttempts)];
    }
    return true;
  }

  // ---------------------------------------------------------------------
  // Properties

  /** Different actions use different keys, so one action's check never touches another's bucket. */
  lemma RateKeyInjective(a: JsString, b: JsString)
    ensures RateKey(a) == RateKey(b) <==> a == b
  {
    if RateKey(a) == RateKey(b) {
      assert a == RateKey(a)[|PREFIX|..];
    }
  }

  /** A bucket written by an accepted check holds at most `maxAttempts` timestamps. */
  lemma AcceptedBucketBounded(attempts: seq<int>, maxAttempts: int, window: int, now: int)
    requires Allowed(attempts, maxAttempts, window, now)
    ensures |After(attempts, maxAttempts, window, now)| <= maxAttempts
  {
  }

  /** Every timestamp in a written bucket lies inside the window (for a positive window). */
  lemma AcceptedBucketFresh(attempts: seq<int>, maxAttempts: int, window: int, now: int)
    requires window > 0 && Allowed(attempts, maxAttempts, window, now)
    ensures forall t :: t in After(attempts, maxAttempts, window, now) ==> now - t < window
  {
  }

  /** `k` copies of `now`. */
  function Repeat(now: int, k: nat): (r: seq<int>)
    ensures |r| == k && forall i :: 0 <= i < k ==> r[i] == now
  {
    seq(k, _ => now)
  }

  /**
   * A burst at one instant from an empty bucket: after `k` accepted checks
   * the bucket is `k` copies of `now`, the next check is accepted exactly
   * when `k < maxAttempts`, and a refused check leaves the bucket so that
   * every later one is refused as well.
   */
  lemma {:induction false} BurstAtOneInstant(maxAttempts: int, window: int, now: int, k: nat)
    requires window > 0 && k <= maxAttempts
    ensures Allowed(Repeat(now, k), maxAttempts, window, now) <==> k < maxAttempts
    ensures k < maxAttempts ==> After(Repeat(now, k), maxAttempts, window, now) == Repeat(now, k + 1)
    ensures k == maxAttempts ==> After(Repeat(now, k), maxAttempts, window, now) == Repeat(now, k)
  {
    RecentKeepsAll(Repeat(now, k), now, window);
  }

  /** When every timestamp is inside the window, nothing is dropped. */
  lemma {:induction false} RecentKeepsAll(attempts: seq<int>, now: int, window: int)
    requires forall i :: 0 <= i < |attempts| ==> now - attempts[i] < window
    ensures Recent(attempts, now, window) == attempts
    decreases |attempts|
  {
    if attempts != [] {
      var p := attempts[..|attempts| - 1];
      RecentKeepsAll(p, now, window);
      assert p + [attempts[|attempts| - 1]] == attempts;
    }
  }

  /** When every timestamp has left the window, the next check starts a fresh bucket `[now]`. */
  lemma {:induction false} RecoveryAfterWindow(attempts: seq<int>, maxAttempts: int, window: int, now: int)
    requires maxAttempts >= 1
    requires forall i :: 0 <= i < |attempts| ==> now - attempts[i] >= window
    ensures Allowed(attempts, maxAttempts, window, now)
    ensures After(attempts, maxAttempts, window, now) == [now]
  {
    RecentDropsAll(attempts, now, window);
  }

  lemma {:induction false} RecentDropsAll(attempts: seq<int>, now: int, window: int)
    requires forall i :: 0 <= i < |attempts| ==> now - attempts[i] >= window
    ensures Recent(attempts, now, window) == []
    decreases |attempts|
  {
    if attempts != [] {
      RecentDropsAll(attempts[..|attempts| - 1], now, window);
    }
  }

  /**
   * The two-per-second example: two checks at time 0 pass, the third is
   * refused, and a check once the window has passed is accepted again.
   */
  method TwoPerSecondExample() returns (first: bool, second: bool, third: bool, later: bool)
    ensures first && second && !third && later
  {
    var store := new LocalStorage();
    var x: JsString := ['x' as int];
    first := CheckRateLimit(store, x, 2, 1000, 0, true);
    BurstAtOneInstant(2, 1000, 0, 0);
    assert Bucket(store.rateBuckets, RateKey(x)) == Repeat(0, 1);
    second := CheckRateLimit(store, x, 2, 1000, 0, true);
    BurstAtOneInstant(2, 1000, 0, 1);
    assert Bucket(store.rateBuckets, RateKey(x)) == Repeat(0, 2);
    third := CheckRateLimit(store, x, 2, 1000, 0, true);
    BurstAtOneInstant(2, 1000, 0, 2);
    RecoveryAfterWindow(Repeat(0, 2), 2, 1000, 1000);
    later := CheckRateLimit(store, x, 2, 1000, 1000, true);
  }

  /**
   * When storage refuses every write, the bucket never fills: with a limit
   * of one, three checks in a row all pass, so an outage turns the limit off.
   */
  method OutageExample() returns (first: bool, second: bool, third: bool)
    ensures first && second && third
  {
    var store := new LocalStorage();
    var x: JsString := ['x' as int];
    first := CheckRateLimit(store, x, 1, 1000, 0, false);
    second := CheckRateLimit(store, x, 1, 1000, 0, false);
    third := CheckRateLimit(store, x, 1, 1000, 0, false);
  }
}
