/** The per-client token bucket with pruning of stale buckets. Time is in nanoseconds; the refill is computed
    exactly where the program divides doubles. */
module RateLimit {
  import opened Prelude
  import opened Runs

  const MINUTE := 60_000_000_000
  const STALE_AFTER := 120_000_000_000
  const PRUNE_ABOVE := 10_000

  datatype Bucket = Bucket(tokens: nat, lastRefill: nat)

  // -------------------------------------------------------------- one bucket

  /** Whole tokens earned since the last refill. */
  function Earned(max: nat, b: Bucket, now: nat): nat
    requires b.lastRefill <= now
  {
    (now - b.lastRefill) * max / MINUTE
  }

  function Refill(max: nat, b: Bucket, now: nat): Bucket
    requires b.lastRefill <= now
  {
    var earned := Earned(max, b, now);
    if earned >= 1 then Bucket(if b.tokens + earned < max then b.tokens + earned else max, now) else b
  }

  function Spend(b: Bucket): (Bucket, bool) {
    if b.tokens > 0 then (b.(tokens := b.tokens - 1), true) else (b, false)
  }

  /** One request against the client's bucket, which a first request creates full. */
  function Request(max: nat, b: Option<Bucket>, now: nat): (Bucket, bool)
    requires b.Some? ==> b.value.lastRefill <= now
  {
    Spend(Refill(max, if b.Some? then b.value else Bucket(max, now), now))
  }

  // ---------------------------------------------------------------- the map

  function Prune(buckets: map<string, Bucket>, now: nat): map<string, Bucket> {
    if |buckets| > PRUNE_ABOVE
    then map k | k in buckets && buckets[k].lastRefill + STALE_AFTER > now :: buckets[k]
    else buckets
  }

  function Get(buckets: map<string, Bucket>, key: string): Option<Bucket> {
    if key in buckets then Some(buckets[key]) else None
  }

  ghost predicate NotAhead(buckets: map<string, Bucket>, now: nat) {
    forall k :: k in buckets ==> buckets[k].lastRefill <= now
  }

  function CheckStep(max: nat, buckets: map<string, Bucket>, key: string, now: nat): (map<string, Bucket>, bool)
    requires NotAhead(buckets, now)
  {
    var kept := Prune(buckets, now);
    var (b, granted) := Request(max, Get(kept, key), now);
    (kept[key := b], granted)
  }

  /** The limiter; `now` is the monotonic clock reading taken under the lock. */
  class RateLimiter {
    const maxTokens: nat
    var buckets: map<string, Bucket>

    constructor (rpm: nat)
      ensures maxTokens == rpm && buckets == map[]
    {
      maxTokens := rpm;
      buckets := map[];
    }

    /** `retain`: the buckets refilled since the cutoff. */
    method Retain(now: nat) returns (kept: map<string, Bucket>)
      ensures kept == map k | k in buckets && buckets[k].lastRefill + STALE_AFTER > now :: buckets[k]
    {
      kept := map[];
      var todo := buckets.Keys;
      while todo != {}
        invariant todo <= buckets.Keys
        invariant kept == map k | k in buckets && k !in todo && buckets[k].lastRefill + STALE_AFTER > now :: buckets[k]
        decreases todo
      {
        var k :| k in todo;
        todo := todo - {k};
        if buckets[k].lastRefill > now - STALE_AFTER {
          kept := kept[k := buckets[k]];
        }
      }
    }

    method Check(key: string, now: nat) returns (granted: bool)
      requires NotAhead(buckets, now)
      modifies this
      ensures (buckets, granted) == CheckStep(maxTokens, old(buckets), key, now)
      ensures NotAhead(buckets, now)
    {
      if |buckets| > PRUNE_ABOVE {
        buckets := Retain(now);
      }
      assert buckets == Prune(old(buckets), now);
      var bucket := Bucket(maxTokens, now);
      if key in buckets {
        bucket := buckets[key];
      }
      var elapsed := now - bucket.lastRefill;
      if elapsed * maxTokens >= MINUTE {
        AtLeastOneToken(elapsed * maxTokens);
        var refilled := bucket.tokens + elapsed * maxTokens / MINUTE;
        bucket := Bucket(if refilled < maxTokens then refilled else maxTokens, now);
      } else {
        LessThanOneToken(elapsed * maxTokens);
      }
      granted := bucket.tokens > 0;
      if granted {
        bucket := bucket.(tokens := bucket.tokens - 1);
      }
      buckets := buckets[key := bucket];
    }
  }

  lemma AtLeastOneToken(x: nat)
    requires x >= MINUTE
    ensures x / MINUTE >= 1
  {
  }

  lemma LessThanOneToken(x: nat)
    requires x < MINUTE
    ensures x / MINUTE == 0
  {
  }

  // ------------------------------------------------------------------- runs

  datatype Call = Call(key: string, now: nat)

  ghost predicate NonDecreasing(calls: seq<Call>) {
    forall i, j :: 0 <= i < j < |calls| ==> calls[i].now <= calls[j].now
  }

  lemma RequestNotAhead(max: nat, b: Option<Bucket>, now: nat)
    requires b.Some? ==> b.value.lastRefill <= now
    ensures Request(max, b, now).0.lastRefill <= now
  {
  }

  lemma CheckNotAhead(max: nat, buckets: map<string, Bucket>, key: string, now: nat, next: nat)
    requires NotAhead(buckets, now) && now <= next
    ensures NotAhead(CheckStep(max, buckets, key, now).0, next)
  {
    RequestNotAhead(max, Get(Prune(buckets, now), key), now);
  }

  /** The bucket map after the first `k` calls. */
  ghost function BucketsAt(max: nat, calls: seq<Call>, k: nat): (m: map<string, Bucket>)
    requires NonDecreasing(calls) && k <= |calls|
    ensures k < |calls| ==> NotAhead(m, calls[k].now)
    ensures k > 0 ==> NotAhead(m, calls[k - 1].now)
  {
    if k == 0 then map[] else
      var c, before := calls[k - 1], BucketsAt(max, calls, k - 1);
      CheckNotAhead(max, before, c.key, c.now, c.now);
      if k < |calls| then
        CheckNotAhead(max, before, c.key, c.now, calls[k].now);
        CheckStep(max, before, c.key, c.now).0
      else
        CheckStep(max, before, c.key, c.now).0
  }

  /** The limiter's answer to call `k`. */
  ghost function Answer(max: nat, calls: seq<Call>, k: nat): bool
    requires NonDecreasing(calls) && k < |calls|
  {
    CheckStep(max, BucketsAt(max, calls, k), calls[k].key, calls[k].now).1
  }

  // ----------------------------------------------------------- the reference

  predicate Ascend(times: seq<nat>) {
    forall i, j :: 0 <= i < j < |times| ==> times[i] <= times[j]
  }

  /** The bucket of a client that is alone with a limiter that never prunes, after requests at these times. */
  function SoloAt(max: nat, times: seq<nat>): (b: Option<Bucket>)
    requires Ascend(times)
    ensures b.Some? <==> times != []
    ensures b.Some? ==> b.value.lastRefill <= times[|times| - 1]
  {
    if times == [] then None else
      var before := SoloAt(max, times[..|times| - 1]);
      Some(Request(max, before, times[|times| - 1]).0)
  }

  function SoloAnswer(max: nat, times: seq<nat>, now: nat): bool
    requires Ascend(times)
    requires times == [] || times[|times| - 1] <= now
  {
    Request(max, SoloAt(max, times), now).1
  }

  /** The times at which the client asked, among the first `k` calls. */
  function TimesOf(calls: seq<Call>, key: string, k: nat): seq<nat>
    requires k <= |calls|
  {
    if k == 0 then [] else
      TimesOf(calls, key, k - 1) + Own(calls[k - 1], key)
  }

  function Own(c: Call, key: string): seq<nat> {
    if c.key == key then [c.now] else []
  }

  lemma {:induction false} TimesAscend(calls: seq<Call>, key: string, k: nat)
    requires NonDecreasing(calls) && k <= |calls|
    ensures var ts := TimesOf(calls, key, k);
      && Ascend(ts)
      && (forall i :: 0 <= i < |ts| ==> (k > 0 && ts[i] <= calls[k - 1].now))
  {
    if k > 0 {
      TimesAscend(calls, key, k - 1);
    }
  }

  // ------------------------------------------------- pruning is unobservable

  lemma StaleEarnsAll(max: nat, elapsed: nat)
    requires max > 0 && elapsed >= STALE_AFTER
    ensures elapsed * max / MINUTE >= max
  {
    assert elapsed * max >= STALE_AFTER * max;
    assert STALE_AFTER * max == MINUTE * (2 * max);
    DivideMonotone(MINUTE * (2 * max), elapsed * max);
  }

  lemma DivideMonotone(a: nat, b: nat)
    requires a <= b && a % MINUTE == 0
    ensures a / MINUTE <= b / MINUTE
  {
  }

  /** What the limiter holds for a client against what it would hold had it never pruned: the same bucket, or
      nothing when the bucket has long been full again. With a zero limit only the refill time may differ. */
  predicate Faithful(max: nat, held: Option<Bucket>, solo: Option<Bucket>, now: nat) {
    match solo
    case None => held.None?
    case Some(b) =>
      && b.tokens <= max
      && if held.Some? then held == solo ||
           (max == 0 && held.value.tokens == 0 && b.lastRefill <= held.value.lastRefill)
         else b.lastRefill + STALE_AFTER <= now
  }

  lemma SameAnswer(max: nat, held: Option<Bucket>, solo: Option<Bucket>, now: nat)
    requires Faithful(max, held, solo, now)
    requires (held.Some? ==> held.value.lastRefill <= now) && (solo.Some? ==> solo.value.lastRefill <= now)
    ensures Request(max, held, now).1 == Request(max, solo, now).1
    ensures Faithful(max, Some(Request(max, held, now).0), Some(Request(max, solo, now).0), now)
  {
    if held.None? && solo.Some? {
      assert Earned(max, Bucket(max, now), now) == 0;
      if max > 0 {
        StaleEarnsAll(max, now - solo.value.lastRefill);
      } else {
        assert Earned(max, solo.value, now) == 0;
      }
    }
  }

  lemma PruneIsFaithful(max: nat, buckets: map<string, Bucket>, key: string, solo: Option<Bucket>, now: nat)
    requires Faithful(max, Get(buckets, key), solo, now)
    ensures Faithful(max, Get(Prune(buckets, now), key), solo, now)
  {
  }

  lemma Later(max: nat, held: Option<Bucket>, solo: Option<Bucket>, now: nat, next: nat)
    requires Faithful(max, held, solo, now) && now <= next
    ensures Faithful(max, held, solo, next)
  {
  }

  lemma OwnCall(max: nat, before: map<string, Bucket>, ts: seq<nat>, c: Call)
    requires NotAhead(before, c.now) && Ascend(ts) && (ts == [] || ts[|ts| - 1] <= c.now)
    requires Faithful(max, Get(before, c.key), SoloAt(max, ts), c.now)
    ensures Ascend(ts + [c.now])
    ensures CheckStep(max, before, c.key, c.now).1 == SoloAnswer(max, ts, c.now)
    ensures Faithful(max, Get(CheckStep(max, before, c.key, c.now).0, c.key), SoloAt(max, ts + [c.now]), c.now)
  {
    PruneIsFaithful(max, before, c.key, SoloAt(max, ts), c.now);
    SameAnswer(max, Get(Prune(before, c.now), c.key), SoloAt(max, ts), c.now);
    assert (ts + [c.now])[..|ts|] == ts;
  }

  lemma OtherCall(max: nat, before: map<string, Bucket>, key: string, solo: Option<Bucket>, c: Call)
    requires NotAhead(before, c.now) && c.key != key && Faithful(max, Get(before, key), solo, c.now)
    ensures Faithful(max, Get(CheckStep(max, before, c.key, c.now).0, key), solo, c.now)
  {
    PruneIsFaithful(max, before, key, solo, c.now);
  }

  /** What the limiter holds after `k` calls for the client is faithful to what it would hold alone. */
  ghost predicate FaithfulAt(max: nat, calls: seq<Call>, k: nat, key: string, now: nat)
    requires NonDecreasing(calls) && k <= |calls|
  {
    && Ascend(TimesOf(calls, key, k))
    && Faithful(max, Get(BucketsAt(max, calls, k), key), SoloAt(max, TimesOf(calls, key, k)), now)
  }

  lemma CallIsFaithful(max: nat, before: map<string, Bucket>, ts: seq<nat>, c: Call, key: string)
    requires NotAhead(before, c.now) && Ascend(ts) && (ts == [] || ts[|ts| - 1] <= c.now)
    requires Faithful(max, Get(before, key), SoloAt(max, ts), c.now)
    ensures Ascend(ts + Own(c, key))
    ensures Faithful(max, Get(CheckStep(max, before, c.key, c.now).0, key), SoloAt(max, ts + Own(c, key)), c.now)
  {
    if c.key == key {
      OwnCall(max, before, ts, c);
    } else {
      OtherCall(max, before, key, SoloAt(max, ts), c);
      assert ts + [] == ts;
    }
  }

  lemma NextBuckets(max: nat, calls: seq<Call>, k: nat)
    requires NonDecreasing(calls) && k < |calls|
    ensures NotAhead(BucketsAt(max, calls, k), calls[k].now)
    ensures BucketsAt(max, calls, k + 1) == CheckStep(max, BucketsAt(max, calls, k), calls[k].key, calls[k].now).0
  {
  }

  lemma LastAsked(calls: seq<Call>, key: string, k: nat)
    requires NonDecreasing(calls) && k < |calls|
    ensures var ts := TimesOf(calls, key, k); Ascend(ts) && (ts == [] || ts[|ts| - 1] <= calls[k].now)
  {
    TimesAscend(calls, key, k);
    assert k > 0 ==> calls[k - 1].now <= calls[k].now;
  }

  lemma NextFaithful(max: nat, calls: seq<Call>, k: nat, key: string)
    requires NonDecreasing(calls) && k < |calls| && FaithfulAt(max, calls, k, key, calls[k].now)
    ensures FaithfulAt(max, calls, k + 1, key, calls[k].now)
  {
    NextBuckets(max, calls, k);
    LastAsked(calls, key, k);
    CallIsFaithful(max, BucketsAt(max, calls, k), TimesOf(calls, key, k), calls[k], key);
  }

  lemma {:induction false} Bisimulates(max: nat, calls: seq<Call>, k: nat, key: string, now: nat)
    requires NonDecreasing(calls) && k <= |calls| && (k > 0 ==> calls[k - 1].now <= now)
    ensures FaithfulAt(max, calls, k, key, now)
  {
    if k > 0 {
      Bisimulates(max, calls, k - 1, key, calls[k - 1].now);
      NextFaithful(max, calls, k - 1, key);
      Later(max, Get(BucketsAt(max, calls, k), key), SoloAt(max, TimesOf(calls, key, k)), calls[k - 1].now, now);
    }
  }

  /** Under a non-decreasing clock the answer to any call is the answer the client would get alone, from a
      limiter that never prunes: pruning and the other clients cannot be observed. */
  lemma PruningIsInvisible(max: nat, calls: seq<Call>, k: nat)
    requires NonDecreasing(calls) && k < |calls|
    ensures var ts := TimesOf(calls, calls[k].key, k);
      && Ascend(ts)
      && (ts == [] || ts[|ts| - 1] <= calls[k].now)
      && Answer(max, calls, k) == SoloAnswer(max, ts, calls[k].now)
  {
    var c := calls[k];
    NextBuckets(max, calls, k);
    LastAsked(calls, c.key, k);
    Bisimulates(max, calls, k, c.key, c.now);
    OwnCall(max, BucketsAt(max, calls, k), TimesOf(calls, c.key, k), c);
  }

  /** Two runs in which a client asks at the same times give it the same answer, whatever else happens in them. */
  lemma OnlyOwnRequestsMatter(max: nat, calls: seq<Call>, k: nat, others: seq<Call>, m: nat)
    requires NonDecreasing(calls) && k < |calls| && NonDecreasing(others) && m < |others|
    requires calls[k] == others[m] && TimesOf(calls, calls[k].key, k) == TimesOf(others, calls[k].key, m)
    ensures Answer(max, calls, k) == Answer(max, others, m)
  {
    PruningIsInvisible(max, calls, k);
    PruningIsInvisible(max, others, m);
  }

  // ---------------------------------------------------------- the rate itself

  /** `granted` requests since time `a`, the tokens left and the time not yet turned into tokens are together
      within one full bucket plus what the time since `a` earns plus a fraction of a token. */
  predicate WithinBudget(max: nat, granted: nat, b: Bucket, now: nat, a: nat)
    requires b.lastRefill <= now && a <= now
  {
    granted * MINUTE + b.tokens * MINUTE + max * (now - b.lastRefill) < max * MINUTE + max * (now - a) + MINUTE
  }

  lemma RefillWithinBudget(max: nat, granted: nat, b: Bucket, last: nat, now: nat, a: nat)
    requires b.lastRefill <= last <= now && a <= last && WithinBudget(max, granted, b, last, a)
    ensures WithinBudget(max, granted, Refill(max, b, now), now, a)
  {
    var elapsed := now - b.lastRefill;
    var earned := Earned(max, b, now);
    assert max * elapsed == max * (last - b.lastRefill) + max * (now - last);
    assert max * (now - a) == max * (last - a) + max * (now - last);
    assert elapsed * max == max * elapsed;
    assert earned * MINUTE <= max * elapsed;
    if earned >= 1 {
      var r := Refill(max, b, now);
      assert r.tokens <= b.tokens + earned;
      assert r.tokens * MINUTE <= b.tokens * MINUTE + earned * MINUTE;
    }
  }

  lemma FirstInWindow(max: nat, b: Option<Bucket>, now: nat, a: nat)
    requires b.Some? ==> b.value.lastRefill <= now && b.value.tokens <= max
    requires a <= now
    ensures WithinBudget(max, 0, Refill(max, if b.Some? then b.value else Bucket(max, now), now), now, a)
  {
    var before := if b.Some? then b.value else Bucket(max, now);
    var r := Refill(max, before, now);
    assert r.tokens <= max;
    assert r.tokens * MINUTE <= max * MINUTE;
    assert max * (now - a) >= 0;
    var x := (now - before.lastRefill) * max;
    if x >= MINUTE {
      AtLeastOneToken(x);
      assert r.lastRefill == now;
    } else {
      LessThanOneToken(x);
      assert r == before && x == max * (now - r.lastRefill);
    }
  }

  /** Call `k` is a request of the client that is granted at a time in [a, b]. */
  ghost predicate Grants(max: nat, calls: seq<Call>, key: string, a: nat, b: nat, k: nat)
    requires NonDecreasing(calls) && k < |calls|
  {
    calls[k].key == key && a <= calls[k].now <= b && Answer(max, calls, k)
  }

  /** How many there are among the first `k` calls. */
  ghost function Granted(max: nat, calls: seq<Call>, key: string, a: nat, b: nat, k: nat): nat
    requires NonDecreasing(calls) && k <= |calls|
  {
    if k == 0 then 0 else Granted(max, calls, key, a, b, k - 1) + if Grants(max, calls, key, a, b, k - 1) then 1 else 0
  }

  lemma {:induction false} SoloHasAtMostMax(max: nat, times: seq<nat>)
    requires Ascend(times)
    ensures times != [] ==> SoloAt(max, times).value.tokens <= max
  {
    if times != [] {
      SoloHasAtMostMax(max, times[..|times| - 1]);
    }
  }

  /** The window's budget holds once the client has asked in it; before that nothing was granted. */
  ghost predicate WindowOk(max: nat, granted: nat, times: seq<nat>, a: nat, b: nat)
    requires Ascend(times)
  {
    if times == [] || times[|times| - 1] < a then granted == 0
    else if times[|times| - 1] <= b then WithinBudget(max, granted, SoloAt(max, times).value, times[|times| - 1], a)
    else granted * MINUTE < max * MINUTE + max * (b - a) + MINUTE
  }

  lemma RequestInWindow(max: nat, granted: nat, solo: Option<Bucket>, last: nat, now: nat, a: nat)
    requires solo.Some? ==> solo.value.lastRefill <= last <= now && solo.value.tokens <= max
    requires a <= now
    requires if solo.None? || last < a then granted == 0 else WithinBudget(max, granted, solo.value, last, a)
    ensures var (b, more) := Request(max, solo, now);
      b.lastRefill <= now && WithinBudget(max, granted + if more then 1 else 0, b, now, a)
  {
    if solo.None? || last < a {
      FirstInWindow(max, solo, now, a);
    } else {
      RefillWithinBudget(max, granted, solo.value, last, now, a);
    }
  }

  lemma SoloNext(max: nat, times: seq<nat>, now: nat)
    requires Ascend(times) && (times == [] || times[|times| - 1] <= now)
    ensures Ascend(times + [now])
    ensures SoloAt(max, times + [now]) == Some(Request(max, SoloAt(max, times), now).0)
    ensures SoloAnswer(max, times, now) == Request(max, SoloAt(max, times), now).1
  {
    var ts := times + [now];
    assert ts[..|ts| - 1] == times && ts[|ts| - 1] == now;
    assert Ascend(ts);
  }

  lemma WindowStep(max: nat, granted: nat, times: seq<nat>, now: nat, a: nat, b: nat)
    requires a <= b
    requires Ascend(times) && (times == [] || times[|times| - 1] <= now)
    requires WindowOk(max, granted, times, a, b)
    ensures Ascend(times + [now])
    ensures WindowOk(max, granted + (if a <= now <= b && SoloAnswer(max, times, now) then 1 else 0),
                     times + [now], a, b)
  {
    SoloNext(max, times, now);
    if a <= now <= b {
      SoloHasAtMostMax(max, times);
      RequestInWindow(max, granted, SoloAt(max, times), if times == [] then 0 else times[|times| - 1], now, a);
    } else if b < now {
      WindowCloses(max, granted, times, a, b);
    }
  }

  lemma BudgetBound(max: nat, granted: nat, bucket: Bucket, now: nat, a: nat, b: nat)
    requires bucket.lastRefill <= now && a <= now <= b && WithinBudget(max, granted, bucket, now, a)
    ensures granted * MINUTE < max * MINUTE + max * (b - a) + MINUTE
  {
    assert max * (b - a) == max * (now - a) + max * (b - now);
    Product(max, b - now);
    Product(max, now - bucket.lastRefill);
  }

  lemma Product(x: nat, y: nat)
    ensures x * y >= 0
  {
  }

  lemma WindowCloses(max: nat, granted: nat, times: seq<nat>, a: nat, b: nat)
    requires a <= b && Ascend(times) && WindowOk(max, granted, times, a, b)
    ensures granted * MINUTE < max * MINUTE + max * (b - a) + MINUTE
  {
    Product(max, b - a);
    if times != [] && a <= times[|times| - 1] <= b {
      BudgetBound(max, granted, SoloAt(max, times).value, times[|times| - 1], a, b);
    }
  }

  /** Requests granted at times in [a, b] to a client that is alone. */
  function SoloGranted(max: nat, times: seq<nat>, a: nat, b: nat): nat
    requires Ascend(times)
  {
    if times == [] then 0 else
      var init, now := times[..|times| - 1], times[|times| - 1];
      SoloGranted(max, init, a, b) + if a <= now <= b && SoloAnswer(max, init, now) then 1 else 0
  }

  lemma GrantedOnce(max: nat, times: seq<nat>, now: nat, a: nat, b: nat)
    requires Ascend(times) && (times == [] || times[|times| - 1] <= now)
    ensures Ascend(times + [now])
    ensures SoloGranted(max, times + [now], a, b) ==
            SoloGranted(max, times, a, b) + if a <= now <= b && SoloAnswer(max, times, now) then 1 else 0
  {
    assert (times + [now])[..|times|] == times;
  }

  ghost predicate CountsAgree(max: nat, calls: seq<Call>, key: string, a: nat, b: nat, k: nat)
    requires NonDecreasing(calls) && k <= |calls|
  {
    && Ascend(TimesOf(calls, key, k))
    && Granted(max, calls, key, a, b, k) == SoloGranted(max, TimesOf(calls, key, k), a, b)
  }

  lemma GrantsAlone(max: nat, calls: seq<Call>, key: string, a: nat, b: nat, k: nat)
    requires NonDecreasing(calls) && k < |calls|
    ensures var ts, c := TimesOf(calls, key, k), calls[k];
      && Ascend(ts) && (ts == [] || ts[|ts| - 1] <= c.now)
      && (Grants(max, calls, key, a, b, k) <==> c.key == key && a <= c.now <= b && SoloAnswer(max, ts, c.now))
  {
    LastAsked(calls, key, k);
    if calls[k].key == key {
      PruningIsInvisible(max, calls, k);
    }
  }

  lemma CountOnce(max: nat, ts: seq<nat>, c: Call, key: string, a: nat, b: nat)
    requires Ascend(ts) && (ts == [] || ts[|ts| - 1] <= c.now)
    ensures Ascend(ts + Own(c, key))
    ensures SoloGranted(max, ts + Own(c, key), a, b) == SoloGranted(max, ts, a, b) +
            if c.key == key && a <= c.now <= b && SoloAnswer(max, ts, c.now) then 1 else 0
  {
    if c.key == key {
      GrantedOnce(max, ts, c.now, a, b);
    } else {
      assert ts + [] == ts;
    }
  }

  lemma NextCount(max: nat, calls: seq<Call>, key: string, a: nat, b: nat, k: nat)
    requires NonDecreasing(calls) && k < |calls| && CountsAgree(max, calls, key, a, b, k)
    ensures CountsAgree(max, calls, key, a, b, k + 1)
  {
    GrantsAlone(max, calls, key, a, b, k);
    CountOnce(max, TimesOf(calls, key, k), calls[k], key, a, b);
  }

  lemma GrantsAreSolo(max: nat, calls: seq<Call>, key: string, a: nat, b: nat, k: nat)
    requires NonDecreasing(calls) && k <= |calls|
    ensures CountsAgree(max, calls, key, a, b, k)
  {
    var agree := (m: nat) => m <= |calls| && CountsAgree(max, calls, key, a, b, m);
    forall m | 0 <= m < |calls| ensures Kept(agree, m) {
      if agree(m) {
        NextCount(max, calls, key, a, b, m);
      }
    }
    UpTo(agree, |calls|, k);
  }

  lemma {:induction false} WindowHolds(max: nat, times: seq<nat>, a: nat, b: nat)
    requires Ascend(times) && a <= b
    ensures WindowOk(max, SoloGranted(max, times, a, b), times, a, b)
  {
    if times != [] {
      var init, now := times[..|times| - 1], times[|times| - 1];
      WindowHolds(max, init, a, b);
      WindowStep(max, SoloGranted(max, init, a, b), init, now, a, b);
      assert times == init + [now];
    }
  }

  /** In any time window a client is granted fewer requests than one full bucket, plus what the length of the
      window earns at `max` per minute, plus one: for every run, whatever the other clients do. */
  lemma RateIsLimited(max: nat, calls: seq<Call>, key: string, a: nat, b: nat)
    requires NonDecreasing(calls) && a <= b
    ensures Granted(max, calls, key, a, b, |calls|) * MINUTE < max * MINUTE + max * (b - a) + MINUTE
  {
    var ts := TimesOf(calls, key, |calls|);
    GrantsAreSolo(max, calls, key, a, b, |calls|);
    WindowHolds(max, ts, a, b);
    WindowCloses(max, SoloGranted(max, ts, a, b), ts, a, b);
  }

  // ------------------------------------------------------- what is granted

  /** The client's bucket as a request at `now` finds it, refilled. */
  function Available(max: nat, times: seq<nat>, now: nat): Bucket
    requires Ascend(times) && (times == [] || times[|times| - 1] <= now)
  {
    var b := SoloAt(max, times);
    Refill(max, if b.Some? then b.value else Bucket(max, now), now)
  }

  lemma AskOnce(max: nat, times: seq<nat>, now: nat)
    requires Ascend(times) && (times == [] || times[|times| - 1] <= now)
    ensures Ascend(times + [now])
    ensures SoloAt(max, times + [now]) == Some(Spend(Available(max, times, now)).0)
    ensures SoloAnswer(max, times, now) <==> Available(max, times, now).tokens > 0
  {
    SoloNext(max, times, now);
  }

  function Burst(now: nat, n: nat): (ts: seq<nat>)
    ensures |ts| == n && forall i :: 0 <= i < n ==> ts[i] == now
  {
    seq(n, _ => now)
  }

  lemma RefillOnce(max: nat, b: Bucket, now: nat, tokens: nat)
    requires b.lastRefill <= now
    ensures var r := Refill(max, b, now).(tokens := tokens); Refill(max, r, now) == r
  {
    assert (now - now) * max / MINUTE == 0;
  }

  /** `n` tokens gone, as far as there are that many. */
  function Less(b: Bucket, n: nat): Bucket {
    b.(tokens := if n < b.tokens then b.tokens - n else 0)
  }

  lemma AskAgain(max: nat, times: seq<nat>, now: nat, full: Bucket, n: nat)
    requires Ascend(times) && (times == [] || times[|times| - 1] <= now) && Available(max, times, now) == Less(full, n)
    ensures Ascend(times + [now]) && Available(max, times + [now], now) == Less(full, n + 1)
  {
    AskOnce(max, times, now);
    var b := SoloAt(max, times);
    RefillOnce(max, if b.Some? then b.value else Bucket(max, now), now, Less(full, n + 1).tokens);
  }

  lemma BurstGrows(times: seq<nat>, now: nat, n: nat)
    requires n > 0
    ensures times + Burst(now, n) == times + Burst(now, n - 1) + [now]
  {
  }

  lemma {:induction false} BurstLeaves(max: nat, times: seq<nat>, now: nat, n: nat)
    requires Ascend(times) && (times == [] || times[|times| - 1] <= now)
    ensures Ascend(times + Burst(now, n))
    ensures Available(max, times + Burst(now, n), now) == Less(Available(max, times, now), n)
  {
    if n == 0 {
      assert times + Burst(now, n) == times;
    } else {
      BurstLeaves(max, times, now, n - 1);
      BurstGrows(times, now, n);
      AskAgain(max, times + Burst(now, n - 1), now, Available(max, times, now), n - 1);
    }
  }

  /** Whatever a client did before, of requests that arrive together exactly as many are granted as there are
      tokens; these are at most `max`, and `max` when the client is new. */
  lemma BurstIsBounded(max: nat, times: seq<nat>, now: nat, n: nat)
    requires Ascend(times) && (times == [] || times[|times| - 1] <= now)
    ensures Ascend(times + Burst(now, n))
    ensures SoloAnswer(max, times + Burst(now, n), now) <==> n < Available(max, times, now).tokens
    ensures Available(max, times, now).tokens <= max
    ensures times == [] ==> Available(max, times, now).tokens == max
  {
    BurstLeaves(max, times, now, n);
    AskOnce(max, times + Burst(now, n), now);
    SoloHasAtMostMax(max, times);
    assert (now - now) * max / MINUTE == 0;
  }

  /** A client with an empty bucket is granted its next request exactly when the time since its last refill
      has earned a whole token. */
  lemma EmptyBucketRecovers(max: nat, b: Bucket, now: nat)
    requires b.tokens == 0 && b.lastRefill <= now
    ensures Request(max, Some(b), now).1 <==> (now - b.lastRefill) * max >= MINUTE
  {
    var x := (now - b.lastRefill) * max;
    if x >= MINUTE {
      AtLeastOneToken(x);
      assert max > 0;
    } else {
      LessThanOneToken(x);
    }
  }

  lemma LongerEarnsMore(max: nat, short: nat, long: nat)
    requires short <= long && short * max >= MINUTE
    ensures long * max >= MINUTE
  {
    assert long * max == short * max + (long - short) * max;
    Product(long - short, max);
  }

  lemma SpacedAlone(max: nat, times: seq<nat>, now: nat)
    requires Ascend(times) && max > 0
    requires times != [] ==> times[|times| - 1] <= now && (now - times[|times| - 1]) * max >= MINUTE
    ensures SoloAnswer(max, times, now)
  {
    AskOnce(max, times, now);
    if times == [] {
      assert (now - now) * max / MINUTE == 0;
    } else {
      var b := SoloAt(max, times).value;
      LongerEarnsMore(max, now - times[|times| - 1], now - b.lastRefill);
      AtLeastOneToken((now - b.lastRefill) * max);
    }
  }

  /** In any run, a request that comes a minute's `max`-th part or more after the client's previous one, or is its
      first, is granted, whatever happened before and whatever other clients do. */
  lemma SpacedRequestIsGranted(max: nat, calls: seq<Call>, k: nat)
    requires NonDecreasing(calls) && k < |calls| && max > 0
    requires var ts := TimesOf(calls, calls[k].key, k);
      ts != [] ==> ts[|ts| - 1] <= calls[k].now && (calls[k].now - ts[|ts| - 1]) * max >= MINUTE
    ensures Answer(max, calls, k)
  {
    PruningIsInvisible(max, calls, k);
    SpacedAlone(max, TimesOf(calls, calls[k].key, k), calls[k].now);
  }

  // ------------------------------------------- a client that keeps asking

  /** Each request follows the one before within the time that earns one token. */
  ghost predicate Steady(max: nat, times: seq<nat>) {
    forall i :: 0 <= i < |times| - 1 ==> Soon(max, times, i)
  }

  predicate Soon(max: nat, times: seq<nat>, i: nat)
    requires i < |times| - 1
  {
    (times[i + 1] - times[i]) * max <= MINUTE
  }

  /** Since the first request at `a`, grants and tokens left make up a full bucket and half of what the time until
      the last refill earns; less than a token is outstanding; and there is room for one more. */
  predicate Supplied(max: nat, granted: nat, b: Bucket, now: nat, a: nat)
    requires a <= b.lastRefill <= now
  {
    && 2 * MINUTE * (granted + b.tokens) >= 2 * MINUTE * max + max * (b.lastRefill - a)
    && max * (now - b.lastRefill) < MINUTE && b.tokens < max
  }

  lemma FirstSupplied(max: nat, now: nat)
    requires max > 0
    ensures var (b, granted) := Request(max, None, now);
      granted && b.lastRefill == now && Supplied(max, 1, b, now, now)
  {
    assert (now - now) * max / MINUTE == 0;
    Product(max, 0);
  }

  lemma SupplyWaits(max: nat, granted: nat, b: Bucket, now: nat, a: nat, last: nat)
    requires a <= b.lastRefill <= last <= now && Supplied(max, granted, b, last, a)
    requires (now - b.lastRefill) * max < MINUTE
    ensures Refill(max, b, now) == b && Supplied(max, granted, b, now, a)
  {
    LessThanOneToken((now - b.lastRefill) * max);
    assert max * (now - b.lastRefill) == (now - b.lastRefill) * max;
  }

  lemma SupplyCredited(max: nat, granted: nat, b: Bucket, now: nat, a: nat, last: nat)
    requires a <= b.lastRefill <= last <= now && Supplied(max, granted, b, last, a)
    requires MINUTE <= (now - b.lastRefill) * max < 2 * MINUTE
    ensures Refill(max, b, now) == Bucket(b.tokens + 1, now)
    ensures 2 * MINUTE * (granted + b.tokens + 1) >= 2 * MINUTE * max + max * (now - a)
  {
    ExactlyOneToken((now - b.lastRefill) * max);
    SplitProduct(max, b.lastRefill - a, now - b.lastRefill);
  }

  lemma SplitProduct(max: nat, x: nat, y: nat)
    ensures max * (x + y) == max * x + y * max
  {
  }

  lemma SpentSupply(max: nat, granted: nat, b: Bucket, now: nat, a: nat)
    requires a <= b.lastRefill <= now && b.tokens <= max && max > 0
    requires 2 * MINUTE * (granted + b.tokens) >= 2 * MINUTE * max + max * (b.lastRefill - a)
    requires max * (now - b.lastRefill) < MINUTE
    ensures var (b', more) := Spend(b);
      b'.lastRefill == b.lastRefill && Supplied(max, granted + if more then 1 else 0, b', now, a)
  {
  }

  lemma SupplyStep(max: nat, granted: nat, b: Bucket, last: nat, now: nat, a: nat)
    requires max > 0 && a <= b.lastRefill <= last <= now &&
      Supplied(max, granted, b, last, a) && (now - last) * max <= MINUTE
    ensures var (b', more) := Request(max, Some(b), now);
      a <= b'.lastRefill <= now && Supplied(max, granted + if more then 1 else 0, b', now, a)
  {
    SplitProduct(max, last - b.lastRefill, now - last);
    if (now - b.lastRefill) * max < MINUTE {
      SupplyWaits(max, granted, b, now, a, last);
      SpentSupply(max, granted, b, now, a);
    } else {
      SupplyCredited(max, granted, b, now, a, last);
      Product(max, 0);
      SpentSupply(max, granted, Bucket(b.tokens + 1, now), now, a);
    }
  }

  lemma ExactlyOneToken(x: nat)
    requires MINUTE <= x < 2 * MINUTE
    ensures x / MINUTE == 1
  {
  }

  lemma {:induction false} StaysSupplied(max: nat, times: seq<nat>, a: nat, b: nat)
    requires max > 0 && times != [] && Ascend(times) && Steady(max, times) && a <= times[0] && times[|times| - 1] <= b
    ensures var bucket := SoloAt(max, times).value;
      && times[0] <= bucket.lastRefill <= times[|times| - 1]
      && Supplied(max, SoloGranted(max, times, a, b), bucket, times[|times| - 1], times[0])
  {
    var init, now := times[..|times| - 1], times[|times| - 1];
    if init == [] {
      FirstSupplied(max, now);
    } else {
      assert forall i :: 0 <= i < |init| - 1 ==> (Soon(max, times, i) <==> Soon(max, init, i));
      StaysSupplied(max, init, a, b);
      assert Soon(max, times, |times| - 2);
      SupplyStep(max, SoloGranted(max, init, a, b), SoloAt(max, init).value, init[|init| - 1], now, times[0]);
    }
  }

  lemma HalfEarned(max: nat, granted: nat, b: Bucket, now: nat, a: nat)
    requires a <= b.lastRefill <= now && Supplied(max, granted, b, now, a)
    ensures 2 * MINUTE * granted > max * (now - a)
  {
    SplitProduct(max, b.lastRefill - a, now - b.lastRefill);
  }

  /** In any run, a client that asks at least once in the time that earns a token is granted, from its first request
      to its last, more than half of what that time earns: throwing the fraction of a token away at each refill
      costs it no more. */
  lemma SteadyClientIsServed(max: nat, calls: seq<Call>, key: string, a: nat, b: nat)
    requires NonDecreasing(calls) && max > 0 && var ts := TimesOf(calls, key, |calls|);
      ts != [] && a == ts[0] && b == ts[|ts| - 1] && Steady(max, ts)
    ensures a <= b && 2 * MINUTE * Granted(max, calls, key, a, b, |calls|) > max * (b - a)
  {
    var ts := TimesOf(calls, key, |calls|);
    GrantsAreSolo(max, calls, key, a, b, |calls|);
    StaysSupplied(max, ts, a, b);
    HalfEarned(max, SoloGranted(max, ts, a, b), SoloAt(max, ts).value, b, a);
  }
}
