/** What a client gets from the rate limiter when it asks at even intervals. */
module RateSpacing {
  import opened Prelude
  import opened RateLimit

  /** How many intervals earn a token, when one interval earns `x` minute-parts of it; rounded up. */
  function Period(x: nat): nat
    requires x > 0
  {
    (MINUTE + x - 1) / x
  }

  lemma DivideFacts(a: nat, b: nat)
    requires b > 0
    ensures a == a / b * b + a % b && 0 <= a % b < b && a / b >= 0
  {
  }

  lemma Smaller(p: nat, q: nat, x: nat)
    requires p <= q
    ensures p * x <= q * x
  {
  }

  /** The period is the least number of intervals that earn a whole token. */
  lemma PeriodIsLeast(x: nat, r: nat)
    requires x > 0
    ensures Period(x) >= 1 && (r * x >= MINUTE <==> r >= Period(x))
  {
    var p := Period(x);
    DivideFacts(MINUTE + x - 1, x);
    assert p >= 1;
    assert (p - 1) * x == p * x - x;
    if r >= p {
      Smaller(p, r, x);
    } else {
      Smaller(r, p - 1, x);
    }
  }

  lemma NextRemainder(n: nat, p: nat)
    requires p > 0
    ensures (n + 1) % p == if n % p + 1 == p then 0 else n % p + 1
    ensures (n + 1) / p == n / p + if n % p + 1 == p then 1 else 0
  {
    DivideFacts(n, p);
    DivideFacts(n + 1, p);
    var q, r := n / p, n % p;
    if r + 1 == p {
      assert n + 1 == (q + 1) * p + 0;
      QuotientIsUnique(n + 1, p, q + 1, 0);
    } else {
      QuotientIsUnique(n + 1, p, q, r + 1);
    }
  }

  lemma QuotientIsUnique(a: nat, b: nat, q: nat, r: nat)
    requires b > 0 && a == q * b + r && r < b
    ensures a / b == q && a % b == r
  {
    DivideFacts(a, b);
    if a / b < q {
      Smaller(a / b + 1, q, b);
    } else if a / b > q {
      Smaller(q + 1, a / b, b);
    }
  }

  // ---------------------------------------------------- evenly spaced requests

  /** `n` requests, each `d` nanoseconds after the one before, the first that long after `a`. */
  function EvenTimes(a: nat, d: nat, n: nat): (ts: seq<nat>)
    ensures |ts| == n && forall i :: 0 <= i < n ==> ts[i] == a + (i + 1) * d
  {
    seq(n, i requires 0 <= i < n => a + (i + 1) * d)
  }

  /** The client's last request, at `a`, found its bucket refilled just then and took the last token. */
  predicate EmptyAt(max: nat, past: seq<nat>, a: nat) {
    past != [] && past[|past| - 1] == a && Ascend(past) && SoloAt(max, past) == Some(Bucket(0, a))
  }

  lemma NewBucket(max: nat, a: nat)
    ensures Available(max, [], a) == Bucket(max, a)
  {
    assert (a - a) * max / MINUTE == 0;
  }

  lemma AlmostEmpty(max: nat, a: nat)
    requires max > 0
    ensures Ascend(Burst(a, max - 1)) && Available(max, Burst(a, max - 1), a) == Bucket(1, a)
  {
    BurstLeaves(max, [], a, max - 1);
    NewBucket(max, a);
    assert [] + Burst(a, max - 1) == Burst(a, max - 1);
  }

  lemma LastToken(max: nat, times: seq<nat>, a: nat)
    requires Ascend(times) && (times == [] || times[|times| - 1] <= a) && Available(max, times, a) == Bucket(1, a)
    ensures EmptyAt(max, times + [a], a)
  {
    AskOnce(max, times, a);
  }

  /** A new client that asks `max` times at once ends like that. */
  lemma BurstEmpties(max: nat, a: nat)
    requires max > 0
    ensures EmptyAt(max, Burst(a, max), a)
  {
    AlmostEmpty(max, a);
    LastToken(max, Burst(a, max - 1), a);
    assert Burst(a, max) == Burst(a, max - 1) + [a];
  }

  lemma Associate(r: nat, d: nat, max: nat)
    ensures r * d * max == r * (d * max)
  {
  }

  /** The request at the end of a period is granted and empties the bucket again; the ones before it are not. */
  lemma EvenStep(max: nat, d: nat, refilled: nat, r: nat)
    requires 0 < d * max <= MINUTE && r < Period(d * max)
    ensures Request(max, Some(Bucket(0, refilled)), refilled + (r + 1) * d) ==
            if r + 1 == Period(d * max) then (Bucket(0, refilled + (r + 1) * d), true) else (Bucket(0, refilled), false)
  {
    var x := d * max;
    Associate(r + 1, d, max);
    PeriodIsLeast(x, r + 1);
    PeriodIsLeast(x, r);
    assert (r + 1) * x == r * x + x;
    if r + 1 == Period(x) {
      ExactlyOneToken((r + 1) * x);
    } else {
      LessThanOneToken((r + 1) * x);
    }
  }

  /** When the bucket was last refilled, `n` requests after it was empty. */
  function RefilledAt(a: nat, d: nat, n: nat, p: nat): (t: nat)
    requires p > 0
    ensures t + n % p * d == a + n * d
  {
    DivideFacts(n, p);
    Regroup(a, d, n, n % p);
    a + n / p * p * d
  }

  lemma Regroup(a: nat, d: nat, n: nat, r: nat)
    requires r <= n
    ensures (n - r) * d + r * d == n * d
  {
  }

  ghost predicate StandsAt(max: nat, times: seq<nat>, a: nat, b: nat, now: nat, refilled: nat, granted: nat) {
    && Ascend(times) && times != [] && times[|times| - 1] == now
    && SoloAt(max, times) == Some(Bucket(0, refilled)) && SoloGranted(max, times, a + 1, b) == granted
  }

  lemma StandsNext(max: nat, times: seq<nat>, a: nat, b: nat, now: nat, refilled: nat, granted: nat, next: nat)
    requires StandsAt(max, times, a, b, now, refilled, granted) && now <= next && a < next <= b
    requires Request(max, Some(Bucket(0, refilled)), next).0.tokens == 0
    ensures var (bucket, more) := Request(max, Some(Bucket(0, refilled)), next);
      StandsAt(max, times + [next], a, b, next, bucket.lastRefill, granted + if more then 1 else 0)
  {
    GrantedOnce(max, times, next, a + 1, b);
    AskOnce(max, times, next);
  }

  ghost predicate EvenOk(max: nat, past: seq<nat>, a: nat, d: nat, n: nat, b: nat, p: nat)
    requires p > 0
  {
    StandsAt(max, past + EvenTimes(a, d, n), a, b, a + n * d, RefilledAt(a, d, n, p), n / p)
  }

  lemma {:induction false} NoneAfter(max: nat, times: seq<nat>, a: nat, b: nat)
    requires Ascend(times) && forall i :: 0 <= i < |times| ==> times[i] <= a
    ensures SoloGranted(max, times, a + 1, b) == 0
  {
    if times != [] {
      NoneAfter(max, times[..|times| - 1], a, b);
    }
  }

  lemma EvenFirst(max: nat, past: seq<nat>, a: nat, d: nat, b: nat, p: nat)
    requires p > 0 && EmptyAt(max, past, a)
    ensures EvenOk(max, past, a, d, 0, b, p)
  {
    assert past + EvenTimes(a, d, 0) == past;
    QuotientIsUnique(0, p, 0, 0);
    NoneAfter(max, past, a, b);
  }

  lemma EvenOneMore(past: seq<nat>, a: nat, d: nat, n: nat)
    ensures past + EvenTimes(a, d, n + 1) == past + EvenTimes(a, d, n) + [a + (n + 1) * d]
  {
  }

  lemma NextInterval(a: nat, d: nat, n: nat, p: nat)
    requires p > 0 && d > 0
    ensures a < a + (n + 1) * d && a + n * d <= a + (n + 1) * d && n % p < p
    ensures RefilledAt(a, d, n, p) + (n % p + 1) * d == a + (n + 1) * d
    ensures (n + 1) / p == n / p + if n % p + 1 == p then 1 else 0
    ensures RefilledAt(a, d, n + 1, p) == if n % p + 1 == p then a + (n + 1) * d else RefilledAt(a, d, n, p)
  {
    NextRemainder(n, p);
    DivideFacts(n, p);
    OneMore(n, d);
    OneMore(n % p, d);
  }

  lemma OneMore(n: nat, d: nat)
    ensures (n + 1) * d == n * d + d
  {
  }

  lemma EvenOutcome(max: nat, a: nat, d: nat, n: nat, p: nat)
    requires 0 < d * max <= MINUTE && p == Period(d * max) > 0
    ensures a + n * d <= a + (n + 1) * d && a < a + (n + 1) * d
    ensures RefilledAt(a, d, n, p) <= a + (n + 1) * d
    ensures var (bucket, more) := Request(max, Some(Bucket(0, RefilledAt(a, d, n, p))), a + (n + 1) * d);
      bucket == Bucket(0, RefilledAt(a, d, n + 1, p)) && (n + 1) / p == n / p + if more then 1 else 0
  {
    NextInterval(a, d, n, p);
    EvenStep(max, d, RefilledAt(a, d, n, p), n % p);
  }

  lemma EvenNext(max: nat, past: seq<nat>, a: nat, d: nat, n: nat, b: nat, p: nat)
    requires 0 < d * max <= MINUTE && p == Period(d * max) > 0 && EvenOk(max, past, a, d, n, b, p)
    requires a + (n + 1) * d <= b
    ensures EvenOk(max, past, a, d, n + 1, b, p)
  {
    var times, refilled, next := past + EvenTimes(a, d, n), RefilledAt(a, d, n, p), a + (n + 1) * d;
    EvenOneMore(past, a, d, n);
    EvenOutcome(max, a, d, n, p);
    StandsNext(max, times, a, b, a + n * d, refilled, n / p, next);
    assert StandsAt(max, times + [next], a, b, next, RefilledAt(a, d, n + 1, p), (n + 1) / p);
  }

  lemma {:induction false} EvenUpTo(max: nat, past: seq<nat>, a: nat, d: nat, n: nat, b: nat, p: nat)
    requires 0 < d * max <= MINUTE && p == Period(d * max) > 0 && EmptyAt(max, past, a) && a + n * d <= b
    ensures EvenOk(max, past, a, d, n, b, p)
  {
    if n == 0 {
      EvenFirst(max, past, a, d, b, p);
    } else {
      OneMore(n - 1, d);
      EvenUpTo(max, past, a, d, n - 1, b, p);
      EvenNext(max, past, a, d, n - 1, b, p);
    }
  }

  lemma CountInRun(max: nat, calls: seq<Call>, key: string, times: seq<nat>, a: nat, b: nat,
                   now: nat, refilled: nat, granted: nat)
    requires NonDecreasing(calls) && TimesOf(calls, key, |calls|) == times
    requires StandsAt(max, times, a, b, now, refilled, granted)
    ensures Granted(max, calls, key, a + 1, b, |calls|) == granted
  {
    GrantsAreSolo(max, calls, key, a + 1, b, |calls|);
  }

  /** In any run, a client whose bucket is empty and that then asks every `d` nanoseconds, with `d` no more than earns
      a token, is granted exactly every p-th request, where p is the least number of intervals that earn one. */
  lemma EvenClientIsGranted(max: nat, calls: seq<Call>, key: string, past: seq<nat>, a: nat, d: nat, n: nat)
    requires NonDecreasing(calls) && TimesOf(calls, key, |calls|) == past + EvenTimes(a, d, n)
    requires 0 < d * max <= MINUTE && EmptyAt(max, past, a)
    ensures Period(d * max) > 0
    ensures Granted(max, calls, key, a + 1, a + n * d, |calls|) == n / Period(d * max)
  {
    var p, b := Period(d * max), a + n * d;
    PeriodIsLeast(d * max, p);
    EvenUpTo(max, past, a, d, n, b, p);
    CountInRun(max, calls, key, past + EvenTimes(a, d, n), a, b, a + n * d, RefilledAt(a, d, n, p), n / p);
  }

  /** Such a client gets all that the time earns, whatever the number of its requests, if and only if whole intervals
      make up the time of a token. */
  lemma FullRateIff(max: nat, d: nat)
    requires 0 < d * max <= MINUTE
    ensures Period(d * max) > 0
    ensures (forall n: nat :: n / Period(d * max) == n * (d * max) / MINUTE) <==> MINUTE % (d * max) == 0
  {
    var x := d * max;
    var p := Period(x);
    PeriodIsLeast(x, p);
    if MINUTE % x == 0 {
      PeriodDivides(x);
      forall n: nat ensures n / p == n * x / MINUTE {
        ScaledQuotient(n, p, x);
      }
    } else {
      var n := ShortBy(x);
      assert n / p != n * x / MINUTE;
    }
  }

  lemma PeriodDivides(x: nat)
    requires x > 0
    ensures Period(x) * x == MINUTE <==> MINUTE % x == 0
  {
    DivideFacts(MINUTE, x);
    PeriodIsLeast(x, MINUTE / x);
    PeriodIsLeast(x, Period(x));
    if Period(x) * x == MINUTE {
      QuotientIsUnique(MINUTE, x, Period(x), 0);
    } else if MINUTE % x == 0 {
      Smaller(Period(x), MINUTE / x, x);
    }
  }

  lemma ScaledQuotient(n: nat, p: nat, x: nat)
    requires p > 0 && p * x == MINUTE
    ensures n / p == n * x / MINUTE
  {
    DivideFacts(n, p);
    var q, r := n / p, n % p;
    assert n * x == q * p * x + r * x;
    assert q * p * x == q * (p * x);
    assert r * x <= (p - 1) * x;
    QuotientIsUnique(n * x, MINUTE, q, r * x);
  }

  /** A number of requests for which a token is missing. */
  lemma ShortBy(x: nat) returns (n: nat)
    requires 0 < x <= MINUTE && MINUTE % x != 0
    ensures Period(x) > 0 && n / Period(x) < n * x / MINUTE
  {
    var p := Period(x);
    PeriodDivides(x);
    PeriodIsLeast(x, p);
    PeriodIsLeast(x, 1);
    n := p * MINUTE - 1;
    assert n == (MINUTE - 1) * p + (p - 1);
    QuotientIsUnique(n, p, MINUTE - 1, p - 1);
    assert n * x == p * x * MINUTE - x;
    assert p * x * MINUTE >= (MINUTE + 1) * MINUTE;
  }

  /** Half is lost when one interval is not quite enough for a token: every other request is granted. */
  lemma HalfRateIsReached(max: nat, calls: seq<Call>, key: string, past: seq<nat>, a: nat, d: nat, n: nat)
    requires NonDecreasing(calls) && TimesOf(calls, key, |calls|) == past + EvenTimes(a, d, n)
    requires MINUTE <= 2 * (d * max) && d * max < MINUTE && EmptyAt(max, past, a)
    ensures Granted(max, calls, key, a + 1, a + n * d, |calls|) == n / 2
  {
    PeriodIsLeast(d * max, 1);
    PeriodIsLeast(d * max, 2);
    EvenClientIsGranted(max, calls, key, past, a, d, n);
  }
}
