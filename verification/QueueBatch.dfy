/** Batch queue operations against the single operations they stand for. */
module QueueBatch {
  import opened Prelude
  import opened Ordering
  import opened Queue

  /** `k` single claims, one after the other, that all read the same clock values. */
  function ClaimRepeat(q: seq<Job>, release: i64, now: i64, leaseMs: u64, k: nat): (seq<Job>, seq<Job>) {
    if k == 0 then (q, []) else
      var (q1, claimed) := ClaimRepeat(q, release, now, leaseMs, k - 1);
      var (q2, last) := ClaimOne(q1, release, now, leaseMs);
      (q2, claimed + last)
  }

  lemma RepeatOnce(q: seq<Job>, release: i64, now: i64, leaseMs: u64)
    ensures ClaimRepeat(q, release, now, leaseMs, 1) == ClaimOne(q, release, now, leaseMs)
  {
    assert ClaimRepeat(q, release, now, leaseMs, 0) == (q, []);
    var (q1, first) := ClaimOne(q, release, now, leaseMs);
    assert [] + first == first;
  }

  lemma PreparedIsReleased(q: seq<Job>, release: i64)
    requires DistinctIds(q)
    ensures forall j :: j in Prepared(q, release) ==> !Expired(j, release)
  {
    var r := Release(q, release);
    SortPermutes(ByPriority, r);
  }

  /** Nothing is left to release or to move: preparing is idempotent. */
  lemma PreparedFixpoint(p: seq<Job>, release: i64)
    requires Pairwise(ByPriority, p)
    requires forall i :: 0 <= i < |p| ==> !Expired(p[i], release)
    ensures Prepared(p, release) == p
  {
    assert Release(p, release) == p;
    SortFixpoint(ByPriority, p);
  }

  lemma {:induction false} KthEligible(p: seq<Job>, now: i64, k: nat, n: nat) returns (m: nat)
    requires n <= |p| && EligibleBefore(p, now, n) > k
    ensures m < n && Eligible(p[m], now) && EligibleBefore(p, now, m) == k
  {
    if EligibleBefore(p, now, n - 1) > k {
      m := KthEligible(p, now, k, n - 1);
    } else {
      m := n - 1;
    }
  }

  /** After a batch of `k`, the first job still eligible is the one a batch of `k + 1` adds. */
  lemma NextChosen(p: seq<Job>, now: i64, expires: i64, k: nat)
    ensures var f := FirstEligible(LeaseChosen(true, p, now, expires, k), now);
      && (f < |p| ==> !Chosen(p, now, k, f))
      && forall i :: 0 <= i < |p| ==> (Chosen(p, now, k + 1, i) <==> Chosen(p, now, k, i) || i == f)
  {
    var q1 := LeaseChosen(true, p, now, expires, k);
    var f := FirstEligible(q1, now);
    assert forall i :: 0 <= i < |p| ==>
      (Eligible(q1[i], now) <==> Eligible(p[i], now) && EligibleBefore(p, now, i) >= k);
    if f < |p| && EligibleBefore(p, now, f) > k {
      var m := KthEligible(p, now, k, f);
    }
    forall i | 0 <= i < |p| ensures Chosen(p, now, k + 1, i) <==> Chosen(p, now, k, i) || i == f {
      if f < i {
        EligibleBeforeMonotone(p, now, f + 1, i);
      }
    }
  }

  lemma {:induction false} NextTaken(p: seq<Job>, now: i64, expires: i64, k: nat, n: nat)
    requires n <= |p|
    ensures var f := FirstEligible(LeaseChosen(true, p, now, expires, k), now);
      Taken(true, p, now, expires, k + 1, n) == Taken(true, p, now, expires, k, n) +
        if f < n then [LeaseJob(true, p[f], now, expires)] else []
  {
    if n > 0 {
      NextTaken(p, now, expires, k, n - 1);
      NextChosen(p, now, expires, k);
      var f := FirstEligible(LeaseChosen(true, p, now, expires, k), now);
      if f < n - 1 {
        EligibleBeforeMonotone(p, now, f, n - 1);
      }
    }
  }

  /** A batch whose leases outlive the release clock leaves nothing to release or to move. */
  lemma BatchIsPrepared(q: seq<Job>, release: i64, now: i64, expires: i64, k: nat)
    requires DistinctIds(q) && expires > release
    ensures var q1 := LeaseChosen(true, Prepared(q, release), now, expires, k);
      Prepared(q1, release) == q1
  {
    var p := Prepared(q, release);
    PreparedFacts(q, release);
    PreparedIsReleased(q, release);
    PreparedFixpoint(LeaseChosen(true, p, now, expires, k), release);
  }

  lemma NextLeased(p: seq<Job>, now: i64, expires: i64, k: nat)
    ensures var q1 := LeaseChosen(true, p, now, expires, k);
      var f := FirstEligible(q1, now);
      LeaseChosen(true, p, now, expires, k + 1) ==
        if f < |p| then q1[f := LeaseJob(true, q1[f], now, expires)] else q1
  {
    NextChosen(p, now, expires, k);
  }

  lemma ClaimAfterBatch(q: seq<Job>, release: i64, now: i64, leaseMs: u64, k: nat)
    requires DistinctIds(q) && k > 0 && SaturatingAdd(now, leaseMs) > release
    ensures var (q1, claimed) := ClaimUpTo(true, q, release, now, leaseMs, k);
      var (q2, last) := ClaimOne(q1, release, now, leaseMs);
      ClaimUpTo(true, q, release, now, leaseMs, k + 1) == (q2, claimed + last)
  {
    var p := Prepared(q, release);
    var e := SaturatingAdd(now, leaseMs);
    BatchIsPrepared(q, release, now, e, k);
    NextLeased(p, now, e, k);
    NextChosen(p, now, e, k);
    NextTaken(p, now, e, k, |p|);
  }

  lemma {:induction false} RepeatIsWrappingBatch(q: seq<Job>, release: i64, now: i64, leaseMs: u64, k: nat)
    requires DistinctIds(q) && k > 0
    requires k == 1 || SaturatingAdd(now, leaseMs) > release
    ensures ClaimRepeat(q, release, now, leaseMs, k) == ClaimUpTo(true, q, release, now, leaseMs, k)
  {
    if k == 1 {
      OneIsBatchOfOne(q, release, now, leaseMs);
      RepeatOnce(q, release, now, leaseMs);
    } else {
      RepeatIsWrappingBatch(q, release, now, leaseMs, k - 1);
      ClaimAfterBatch(q, release, now, leaseMs, k - 1);
    }
  }

  ghost predicate NoneAtMax(p: seq<Job>, now: i64, limit: nat) {
    forall i :: 0 <= i < |p| && Chosen(p, now, limit, i) ==> p[i].attempts < U32_MAX
  }

  lemma {:induction false} TakenSameCounter(p: seq<Job>, now: i64, expires: i64, limit: nat, n: nat)
    requires n <= |p| && NoneAtMax(p, now, limit)
    ensures Taken(true, p, now, expires, limit, n) == Taken(false, p, now, expires, limit, n)
  {
    if n > 0 {
      TakenSameCounter(p, now, expires, limit, n - 1);
    }
  }

  /** Wrapping and saturating batches agree exactly when no chosen counter is full. */
  lemma CounterAgreement(q: seq<Job>, release: i64, now: i64, leaseMs: u64, limit: nat)
    ensures ClaimUpTo(true, q, release, now, leaseMs, limit) == ClaimUpTo(false, q, release, now, leaseMs, limit)
            <==> NoneAtMax(Prepared(q, release), now, limit)
  {
    var p := Prepared(q, release);
    var e := SaturatingAdd(now, leaseMs);
    var a, b := LeaseChosen(true, p, now, e, limit), LeaseChosen(false, p, now, e, limit);
    if NoneAtMax(p, now, limit) {
      TakenSameCounter(p, now, e, limit, |p|);
      assert a == b;
    } else {
      var i :| 0 <= i < |p| && Chosen(p, now, limit, i) && p[i].attempts == U32_MAX;
      assert a[i].attempts != b[i].attempts;
    }
  }

  lemma {:induction false} TakenDistinct(wrap: bool, p: seq<Job>, now: i64, expires: i64, limit: nat, n: nat)
    requires n <= |p| && DistinctIds(p)
    ensures DistinctIds(Taken(wrap, p, now, expires, limit, n))
  {
    if n > 0 {
      TakenDistinct(wrap, p, now, expires, limit, n - 1);
      TakenFromChosen(wrap, p, now, expires, limit, n - 1);
      var t := Taken(wrap, p, now, expires, limit, n - 1);
      forall i | 0 <= i < |t| ensures t[i].id != p[n - 1].id {
        assert t[i] in t;
        var k :| 0 <= k < n - 1 && Chosen(p, now, limit, k) && t[i] == LeaseJob(wrap, p[k], now, expires);
        assert DiffId(p[k], p[n - 1]);
      }
    }
  }

  /** A lease that is already over when it is granted: the next claim hands out the same job again. */
  lemma DeadOnArrival(q: seq<Job>, release: i64, now: i64, leaseMs: u64)
    requires DistinctIds(q) && SaturatingAdd(now, leaseMs) <= release
    requires FirstEligible(Prepared(q, release), now) < |q|
    ensures var (_, claimed) := ClaimRepeat(q, release, now, leaseMs, 2);
      |claimed| == 2 && claimed[0].id == claimed[1].id
  {
    PreparedFacts(q, release);
    PreparedIsReleased(q, release);
    var p := Prepared(q, release);
    var f := FirstEligible(p, now);
    var (q1, first) := ClaimOne(q, release, now, leaseMs);
    RepeatOnce(q, release, now, leaseMs);
    var back := ReleaseJob(q1[f], release);
    var r := p[f := back];
    assert Release(q1, release) == r;
    assert Pairwise(ByPriority, r) by {
      forall i, j | 0 <= i < j < |r| ensures ByPriority(r[i], r[j]) {
        assert ByPriority(p[i], p[j]);
      }
    }
    SortFixpoint(ByPriority, r);
    assert FirstEligible(r, now) == f;
  }

  lemma Extends(a: seq<Job>, b: seq<Job>, c: seq<Job>)
    requires a <= b
    ensures a <= b + c
  {
  }

  lemma {:induction false} RepeatExtends(q: seq<Job>, release: i64, now: i64, leaseMs: u64, m: nat, k: nat)
    requires m <= k
    ensures ClaimRepeat(q, release, now, leaseMs, m).1 <= ClaimRepeat(q, release, now, leaseMs, k).1
  {
    if m < k {
      RepeatExtends(q, release, now, leaseMs, m, k - 1);
      RepeatNext(q, release, now, leaseMs, k - 1);
    }
  }

  lemma RepeatNext(q: seq<Job>, release: i64, now: i64, leaseMs: u64, k: nat)
    ensures ClaimRepeat(q, release, now, leaseMs, k).1 <= ClaimRepeat(q, release, now, leaseMs, k + 1).1
  {
    var (q1, claimed) := ClaimRepeat(q, release, now, leaseMs, k);
    Extends(claimed, claimed, ClaimOne(q1, release, now, leaseMs).1);
  }

  lemma NothingEligible(q: seq<Job>, release: i64, now: i64, leaseMs: u64, k: nat)
    requires DistinctIds(q) && k > 0
    requires FirstEligible(Prepared(q, release), now) == |q|
    ensures ClaimRepeat(q, release, now, leaseMs, k) == (Prepared(q, release), [])
    ensures ClaimUpTo(false, q, release, now, leaseMs, k) == (Prepared(q, release), [])
  {
    var p := Prepared(q, release);
    var e := SaturatingAdd(now, leaseMs);
    PreparedFacts(q, release);
    EligibleBeforeMonotone(p, now, 0, |p|);
    TakenFromChosen(false, p, now, e, k, |p|);
    assert LeaseChosen(false, p, now, e, k) == p;
    if k == 1 {
      RepeatOnce(q, release, now, leaseMs);
    } else {
      NothingEligible(q, release, now, leaseMs, k - 1);
      PreparedIsReleased(q, release);
      PreparedFixpoint(p, release);
    }
  }

  /** A batch claim of `k` leaves the same queue, in the same order, and returns the same jobs as `k`
      single claims at the same clock, exactly when `k` is zero, or nothing is eligible, or no chosen
      job has a full attempt counter and (unless `k` is one) the new leases outlive the release clock. */
  lemma BatchClaimIsRepeatedClaim(q: seq<Job>, release: i64, now: i64, leaseMs: u64, k: nat)
    requires DistinctIds(q) && k <= MAX_QUEUE_BATCH_ITEMS
    ensures var (q1, batch) := ClaimMany(q, release, now, leaseMs, k);
      var (q2, singles) := ClaimRepeat(q, release, now, leaseMs, k);
      var p := Prepared(q, release);
      (q1 == q2 && batch == Ok(singles)) <==>
        || k == 0
        || (forall j :: j in p ==> !Eligible(j, now))
        || ((k == 1 || SaturatingAdd(now, leaseMs) > release) && NoneAtMax(p, now, k))
  {
    var p := Prepared(q, release);
    PreparedFacts(q, release);
    if k > 0 {
      if FirstEligible(p, now) == |p| {
        NothingEligible(q, release, now, leaseMs, k);
      } else if k == 1 || SaturatingAdd(now, leaseMs) > release {
        RepeatIsWrappingBatch(q, release, now, leaseMs, k);
        CounterAgreement(q, release, now, leaseMs, k);
      } else {
        DeadOnArrival(q, release, now, leaseMs);
        RepeatExtends(q, release, now, leaseMs, 2, k);
        TakenDistinct(false, p, now, SaturatingAdd(now, leaseMs), k, |p|);
        var singles := ClaimRepeat(q, release, now, leaseMs, k).1;
        assert !DiffId(singles[0], singles[1]);
        assert p[FirstEligible(p, now)] in p;
      }
    }
  }

  // ------------------------------------------------------------ batch ack

  /** `ack_job` for each id in turn, at one clock value, with every answer kept. */
  function AckEach(q: seq<Job>, ids: seq<string>, now: i64): (seq<Job>, seq<Result<Option<Job>, Error>>) {
    if ids == [] then (q, []) else
      var (q1, answers) := AckEach(q, ids[..|ids| - 1], now);
      var (q2, last) := AckOne(q1, ids[|ids| - 1], now);
      (q2, answers + [last])
  }

  ghost predicate AllAcked(answers: seq<Result<Option<Job>, Error>>) {
    forall i :: 0 <= i < |answers| ==> answers[i].Ok? && answers[i].value.Some?
  }

  ghost predicate Ackable(q: seq<Job>, ids: seq<string>) {
    NoDuplicates(ids) && forall id :: id in ids ==> LeasedIn(q, id)
  }

  lemma IndexOfCompleted(q: seq<Job>, ids: seq<string>, now: i64, id: string)
    ensures IndexOf(CompleteAll(q, ids, now), id) == IndexOf(q, id)
  {
    var r := CompleteAll(q, ids, now);
    var i, k := IndexOf(q, id), IndexOf(r, id);
    assert i < |q| ==> r[i].id == q[i].id;
    assert k < |q| ==> r[k].id == q[k].id;
  }

  lemma AckableSplit(q: seq<Job>, init: seq<string>, id: string)
    ensures Ackable(q, init + [id]) <==> Ackable(q, init) && id !in init && LeasedIn(q, id)
  {
    var ids := init + [id];
    assert forall x :: x in ids <==> x in init || x == id;
    assert forall i :: 0 <= i < |init| ==> init[i] == ids[i];
    assert ids[|init|] == id;
  }

  lemma AllAckedSplit(before: seq<Result<Option<Job>, Error>>, last: Result<Option<Job>, Error>)
    ensures AllAcked(before + [last]) <==> AllAcked(before) && last.Ok? && last.value.Some?
  {
    var all := before + [last];
    assert all[|before|] == last && forall i :: 0 <= i < |before| ==> all[i] == before[i];
  }

  lemma {:induction false} AckEachSucceeds(q: seq<Job>, ids: seq<string>, now: i64)
    requires DistinctIds(q)
    ensures AllAcked(AckEach(q, ids, now).1) <==> Ackable(q, ids)
    ensures Ackable(q, ids) ==>
      && AckEach(q, ids, now).0 == CompleteAll(q, ids, now)
      && AckEach(q, ids, now).1 == Map((j: Job) => Ok(Some(j)), Completions(q, ids, now))
  {
    if ids == [] {
      assert CompleteAll(q, ids, now) == q;
    } else {
      var init, id := ids[..|ids| - 1], ids[|ids| - 1];
      assert ids == init + [id];
      AckEachSucceeds(q, init, now);
      var (q1, before) := AckEach(q, init, now);
      AckableSplit(q, init, id);
      AllAckedSplit(before, AckOne(q1, id, now).1);
      if Ackable(q, init) {
        AckLast(q, init, id, now);
      }
    }
  }

  lemma CompleteLast(q: seq<Job>, init: seq<string>, id: string, now: i64)
    requires DistinctIds(q) && id !in init && LeasedIn(q, id)
    ensures var i := IndexOf(q, id);
      CompleteAll(q, init, now)[i := CompleteJob(q[i], now)] == CompleteAll(q, init + [id], now)
  {
    var i := IndexOf(q, id);
    forall k | 0 <= k < |q| && k != i ensures q[k].id != id {
      assert k < i || DiffId(q[i], q[k]);
    }
  }

  lemma AckLast(q: seq<Job>, init: seq<string>, id: string, now: i64)
    requires DistinctIds(q) && Ackable(q, init)
    ensures var (q2, last) := AckOne(CompleteAll(q, init, now), id, now);
      && (last.Ok? && last.value.Some? <==> id !in init && LeasedIn(q, id))
      && (id !in init && LeasedIn(q, id) ==>
            q2 == CompleteAll(q, init + [id], now) && last.value == Some(CompleteJob(q[IndexOf(q, id)], now)))
  {
    IndexOfCompleted(q, init, now, id);
    if id !in init && LeasedIn(q, id) {
      CompleteLast(q, init, id, now);
    }
  }

  /** A batch acknowledgement either fails with the queue untouched or is exactly the acknowledgement of
      its ids one by one; it succeeds exactly when, within the size cap, each id in turn would. */
  lemma BatchAckIsRepeatedAck(q: seq<Job>, ids: seq<string>, now: i64)
    requires DistinctIds(q)
    ensures var (q1, r) := AckMany(q, ids, now);
      var (q2, answers) := AckEach(q, ids, now);
      && (r.Err? ==> q1 == q)
      && (r.Ok? <==> |ids| <= MAX_QUEUE_BATCH_ITEMS && NoDuplicates(ids) && forall id :: id in ids ==> LeasedIn(q, id))
      && (r.Ok? <==> |ids| <= MAX_QUEUE_BATCH_ITEMS && AllAcked(answers))
      && (r.Ok? ==> q1 == q2 && answers == Map((j: Job) => Ok(Some(j)), r.value))
  {
    AckEachSucceeds(q, ids, now);
  }
}
