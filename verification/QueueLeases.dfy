/** Lease exclusion, terminal states, retry delays and attempt accounting over whole queue runs. */
module QueueLeases {
  import opened Prelude
  import opened Queue
  import opened QueueRuns
  import opened JobTrace
  import Runs

  ghost function TickOf(q: seq<Job>, op: Op, id: string): Tick {
    Tick(op, Happens(Claimed, q, op, id), Happens(Expiry, q, op, id),
         Happens(Acked, q, op, id), Happens(Nacked, q, op, id))
  }

  /** The life of the job `id` in a run that starts from an empty queue. */
  ghost function History(ops: seq<Op>, id: string): (t: Trace)
    ensures t.id == id && |t.jobs| == |ops| + 1 && |t.ticks| == |ops|
    ensures forall k :: 0 <= k < |ops| ==> t.ticks[k].op == ops[k]
    ensures forall k :: 0 <= k <= |ops| ==> t.jobs[k] == Find(At(ops, k), id)
  {
    Trace(id,
          seq(|ops| + 1, k requires 0 <= k <= |ops| => Find(At(ops, k), id)),
          seq(|ops|, k requires 0 <= k < |ops| => TickOf(At(ops, k), ops[k], id)))
  }

  /** In every run each job lives lawfully: it appears by its first push, and each operation changes it in one
      of the ways the claim, expiry, acknowledgement and rejection rules allow. */
  lemma HistoryIsLawful(ops: seq<Op>, id: string)
    ensures Lawful(History(ops, id))
  {
    var t := History(ops, id);
    assert At(ops, 0) == [];
    forall k | 0 <= k < |ops| ensures LawfulTick(id, t.jobs[k], t.jobs[k + 1], t.ticks[k]) {
      NoJobLostOrDuplicated(ops, k, id);
      JobStep(At(ops, k), ops[k], id);
      TickFromStep(At(ops, k), ops[k], id);
      assert At(ops, k + 1) == Step(At(ops, k), ops[k]).0;
    }
  }

  lemma TickFromStep(q: seq<Job>, op: Op, id: string)
    requires StepFacts(q, op, id)
    ensures LawfulTick(id, Find(q, id), Find(Step(q, op).0, id), TickOf(q, op, id))
  {
  }

  /** A completed or dead job is never touched again; in particular no claim ever returns it. */
  lemma TerminalJobsStay(ops: seq<Op>, k: nat, n: nat, id: string)
    requires k <= n <= |ops|
    requires var j := History(ops, id).jobs[k]; j.Some? && j.value.status in {Completed, Dead}
    ensures var t := History(ops, id);
      t.jobs[n] == t.jobs[k] &&
      forall m :: k <= m < n ==> !t.ticks[m].claimed && !t.ticks[m].acked && !t.ticks[m].nacked
  {
    HistoryIsLawful(ops, id);
    TerminalForever(History(ops, id), k, n);
  }

  function FirstReading(op: Op): i64
    requires !op.PushOp?
  {
    if IsClaim(op) then op.release else op.now
  }

  /** Each clock reading in the run is no earlier than the readings before it. */
  ghost predicate NonDecreasingClock(ops: seq<Op>) {
    && (forall i :: 0 <= i < |ops| && !ops[i].PushOp? ==> FirstReading(ops[i]) <= ops[i].now)
    && (forall i, j :: 0 <= i < j < |ops| && !ops[i].PushOp? && !ops[j].PushOp? ==> ops[i].now <= FirstReading(ops[j]))
  }

  lemma LaterClaimsReadLater(ops: seq<Op>, m: nat, j: nat)
    requires NonDecreasingClock(ops) && m <= j < |ops| && IsClaim(ops[m]) && IsClaim(ops[j])
    ensures ops[m].release <= ops[j].release <= ops[j].now
  {
    assert FirstReading(ops[m]) <= ops[m].now && FirstReading(ops[j]) <= ops[j].now;
    assert m < j ==> ops[m].now <= FirstReading(ops[j]);
  }

  /** The trace is about the operations of this run. */
  ghost predicate Follows(t: Trace, ops: seq<Op>) {
    |t.ticks| == |ops| && Lawful(t) && forall k :: 0 <= k < |ops| ==> t.ticks[k].op == ops[k]
  }

  lemma HistoryFollows(ops: seq<Op>, id: string)
    ensures Follows(History(ops, id), ops)
  {
    HistoryIsLawful(ops, id);
  }

  lemma ExclusionInTrace(t: Trace, ops: seq<Op>, i: nat, j: nat)
    requires Follows(t, ops) && NonDecreasingClock(ops) && i < j < |ops| && t.ticks[i].claimed && t.ticks[j].claimed
    requires forall m :: i < m < j ==> !t.ticks[m].nacked
    ensures IsClaim(ops[i]) && IsClaim(ops[j])
    ensures SaturatingAdd(ops[i].now, ops[i].leaseMs) <= ops[j].release <= ops[j].now
  {
    ClaimedWhenAvailable(t, i);
    ClaimedWhenAvailable(t, j);
    var m := LeaseRunsOut(t, i, j);
    assert t.ticks[m].op == ops[m];
    LaterClaimsReadLater(ops, m, j);
  }

  /** Two claims of one job with no rejection between them: under a non-decreasing clock the second claimant
      gets the job no earlier than the first lease expires. */
  lemma LeaseExclusion(ops: seq<Op>, i: nat, j: nat, id: string)
    requires NonDecreasingClock(ops) && i < j < |ops|
    requires var t := History(ops, id).ticks;
      t[i].claimed && t[j].claimed && forall m :: i < m < j ==> !t[m].nacked
    ensures IsClaim(ops[i]) && IsClaim(ops[j])
    ensures SaturatingAdd(ops[i].now, ops[i].leaseMs) <= ops[j].release <= ops[j].now
  {
    HistoryFollows(ops, id);
    ExclusionInTrace(History(ops, id), ops, i, j);
  }

  lemma PushedJob(ops: seq<Op>, j: nat, id: string)
    requires j < |ops| && History(ops, id).ticks[j].claimed
    ensures var i := PushedAt(ops, id); i < j && History(ops, id).jobs[i + 1] == Some(ops[i].job)
  {
    var t, i := History(ops, id), PushedAt(ops, id);
    HistoryIsLawful(ops, id);
    ClaimedWhenAvailable(t, j);
    NoJobLostOrDuplicated(ops, j, id);
    NoJobLostOrDuplicated(ops, i, id);
    assert LawfulTick(id, t.jobs[i], t.jobs[i + 1], t.ticks[i]);
  }

  lemma TimelyInTrace(t: Trace, ops: seq<Op>, i: nat, j: nat)
    requires Follows(t, ops) && NonDecreasingClock(ops) && i <= j < |ops| && t.ticks[j].claimed
    requires t.jobs[i].Some? && !Retriable(t.jobs[i].value)
    ensures IsClaim(ops[j]) && t.jobs[i].value.availableAt <= ops[j].now
  {
    ClaimedWhenAvailable(t, j);
    var c := FirstClaimIsTimely(t, i, j);
    assert t.ticks[c].op == ops[c];
    LaterClaimsReadLater(ops, c, j);
    assert c < j ==> ops[c].now <= FirstReading(ops[j]);
  }

  lemma TimelyPush(t: Trace, ops: seq<Op>, i: nat, j: nat)
    requires Follows(t, ops) && NonDecreasingClock(ops) && i < j < |ops| && t.ticks[j].claimed
    requires ops[i].PushOp? && t.jobs[i + 1] == Some(ops[i].job) && !Retriable(ops[i].job)
    ensures IsClaim(ops[j]) && ops[i].job.availableAt <= ops[j].now
  {
    TimelyInTrace(t, ops, i + 1, j);
  }

  /** Under a non-decreasing clock no claim in the run, rejections or not, comes before the availability time
      the job was first pushed with, unless it was pushed under a lease that a rejection could end. */
  lemma NotBeforePushedTime(ops: seq<Op>, j: nat, id: string)
    requires NonDecreasingClock(ops) && j < |ops| && History(ops, id).ticks[j].claimed
    requires PushedAt(ops, id) < |ops| && !Retriable(ops[PushedAt(ops, id)].job)
    ensures IsClaim(ops[j]) && PushedAt(ops, id) < j && ops[PushedAt(ops, id)].job.availableAt <= ops[j].now
  {
    HistoryFollows(ops, id);
    PushedJob(ops, j, id);
    TimelyPush(History(ops, id), ops, PushedAt(ops, id), j);
  }

  /** Whatever job is pushed under such a lease, with any later availability time than the earliest there is, the
      run that rejects it at once hands it out too early. */
  lemma RetriablePushIsClaimedEarly(job: Job)
    requires Retriable(job) && job.availableAt > I64_MIN
    ensures var ops := [PushOp(job), NackOp(job.id, I64_MIN, 0, ""), ClaimOp(I64_MIN, I64_MIN, 1)];
      && NonDecreasingClock(ops) && PushedAt(ops, job.id) == 0 && History(ops, job.id).ticks[2].claimed
      && ops[2].now < job.availableAt
  {
    var ops := [PushOp(job), NackOp(job.id, I64_MIN, 0, ""), ClaimOp(I64_MIN, I64_MIN, 1)];
    var back := NackJob(job, I64_MIN, 0, "");
    assert At(ops, 0) == [];
    assert At(ops, 1) == [job];
    assert At(ops, 2) == [back];
    ClaimAlone(back, I64_MIN, I64_MIN, 1);
    assert Step(At(ops, 2), ops[2]).1 == Jobs(ClaimOne([back], I64_MIN, I64_MIN, 1).1);
  }

  /** A rejected job is not claimed again before the delay given with its latest rejection has passed. */
  lemma NotBeforeRetryDelay(ops: seq<Op>, i: nat, j: nat, id: string)
    requires i < j < |ops|
    requires var t := History(ops, id).ticks;
      t[i].nacked && t[j].claimed && forall m :: i < m < j ==> !t[m].nacked
    ensures ops[i].NackOp? && IsClaim(ops[j])
    ensures SaturatingAdd(ops[i].now, ops[i].delayMs) <= ops[j].now
  {
    var t := History(ops, id);
    HistoryIsLawful(ops, id);
    assert LawfulTick(id, t.jobs[i], t.jobs[i + 1], t.ticks[i]);
    RetryDelay(t, i, j);
  }

  ghost predicate FreshPushes(ops: seq<Op>) {
    forall i :: 0 <= i < |ops| && ops[i].PushOp? ==> Fresh(ops[i].job)
  }

  /** The books of one job in any run whose pushed jobs are fresh; see `Accounted`. The attempt counter equals
      the number of claims exactly as long as that number fits a u32. */
  lemma AttemptAccounting(ops: seq<Op>, k: nat, id: string)
    requires FreshPushes(ops) && k <= |ops|
    ensures var t := History(ops, id);
      && AccountedAt(t, k)
      && (t.jobs[k].Some? ==>
            (t.jobs[k].value.attempts == Tally(Claimed, t.ticks, k) <==> Tally(Claimed, t.ticks, k) <= U32_MAX))
  {
    HistoryIsLawful(ops, id);
    AlwaysAccounted(History(ops, id), k);
  }

  /** The documented limit holds exactly as long as no lease that ran out at or past it is followed by a claim. In
      every run, of any length, the job is handed out more often than its limit if and only if one claim came with
      or after such an overrun. While the claims fit a u32 the counter is past the limit if and only if there are
      more overruns than the one whose claim a ready job still waits for. */
  lemma LimitIsExceededIff(ops: seq<Op>, k: nat, id: string)
    requires FreshPushes(ops) && k <= |ops| && History(ops, id).jobs[k].Some?
    ensures var t := History(ops, id);
      var j, claims := t.jobs[k].value, Tally(Claimed, t.ticks, k);
      && (claims > AtLeastOne(j.maxAttempts) <==> EverHandedOver(t, k))
      && (claims <= U32_MAX ==>
            (j.attempts > AtLeastOne(j.maxAttempts) <==> Overruns(t, k) > if j.status == Ready then 1 else 0))
  {
    HistoryIsLawful(ops, id);
    AlwaysAccounted(History(ops, id), k);
    AlwaysExceededIff(History(ops, id), k);
  }

  /** `i` milliseconds after the job becomes available, or the end of time. */
  function Moment(job: Job, i: nat): i64 {
    if job.availableAt + i > I64_MAX then I64_MAX else job.availableAt + i
  }

  /** One push and then `n` claims, each at the moment the previous one-millisecond lease runs out. */
  function ExpiringRun(job: Job, n: nat): (ops: seq<Op>)
    ensures |ops| == n + 1 && ops[0] == PushOp(job)
    ensures forall i :: 0 <= i < n ==> ops[i + 1] == ClaimOp(Moment(job, i), Moment(job, i), 1)
  {
    [PushOp(job)] + seq(n, i requires 0 <= i < n => ClaimOp(Moment(job, i), Moment(job, i), 1))
  }

  /** Expiry does not consult the limit: whatever the fresh job and its `maxAttempts`, when its leases keep running
      out every claim hands it out again, so no bound on attempts by the limit alone holds. */
  lemma ExpiryIgnoresTheLimit(job: Job, n: nat, k: nat)
    requires Fresh(job) && k <= n
    ensures FreshPushes(ExpiringRun(job, n)) && NonDecreasingClock(ExpiringRun(job, n))
    ensures At(ExpiringRun(job, n), k + 1) == [Handed(job, k)] && Handed(job, k).attempts == k % (U32_MAX + 1)
    ensures k < n ==> History(ExpiringRun(job, n), job.id).ticks[k + 1].claimed
  {
    ExpiringClock(job, n);
    HandedAgain(job, n, k);
    HandedFacts(job, n, k);
  }

  lemma HandedFacts(job: Job, n: nat, k: nat)
    requires Fresh(job) && HandedThen(job, n)(k)
    ensures k <= n && At(ExpiringRun(job, n), k + 1) == [Handed(job, k)]
    ensures k < n ==> History(ExpiringRun(job, n), job.id).ticks[k + 1].claimed
  {
    if k < n {
      HandedOut(job, n, k);
    }
  }

  lemma ExpiringClock(job: Job, n: nat)
    requires Fresh(job)
    ensures FreshPushes(ExpiringRun(job, n)) && NonDecreasingClock(ExpiringRun(job, n))
  {
    var ops := ExpiringRun(job, n);
    forall i | 0 < i <= n ensures ops[i] == ClaimOp(Moment(job, i - 1), Moment(job, i - 1), 1) {
      assert ops[i - 1 + 1] == ClaimOp(Moment(job, i - 1), Moment(job, i - 1), 1);
    }
  }

  ghost predicate HandedAt(job: Job, n: nat, k: nat)
    requires k <= n
  {
    At(ExpiringRun(job, n), k + 1) == [Handed(job, k)]
  }

  lemma NextHanded(job: Job, n: nat, k: nat)
    requires Fresh(job) && k < n && HandedAt(job, n, k)
    ensures HandedAt(job, n, k + 1)
  {
    var ops := ExpiringRun(job, n);
    assert ops[k + 1] == ClaimOp(Moment(job, k), Moment(job, k), 1);
    ClaimAgain(job, k, At(ops, k + 1));
    assert At(ops, k + 2) == Step(At(ops, k + 1), ops[k + 1]).0;
  }

  lemma HandedOut(job: Job, n: nat, k: nat)
    requires Fresh(job) && k < n && HandedAt(job, n, k)
    ensures History(ExpiringRun(job, n), job.id).ticks[k + 1].claimed
  {
    var ops := ExpiringRun(job, n);
    assert ops[k + 1] == ClaimOp(Moment(job, k), Moment(job, k), 1);
    ClaimReturns(job, k, At(ops, k + 1), ops[k + 1]);
  }

  lemma ClaimReturns(job: Job, k: nat, before: seq<Job>, op: Op)
    requires Fresh(job) && before == [Handed(job, k)] && op == ClaimOp(Moment(job, k), Moment(job, k), 1)
    ensures TickOf(before, op, job.id).claimed
  {
    ClaimAgain(job, k, before);
    ReturnedAlone(before, op, Handed(job, k + 1));
  }

  lemma ReturnedAlone(q: seq<Job>, op: Op, j: Job)
    requires IsClaim(op) && Step(q, op).1 == Jobs([j])
    ensures TickOf(q, op, j.id).claimed
  {
    assert j in Step(q, op).1.jobs;
  }

  ghost function HandedThen(job: Job, n: nat): nat -> bool {
    (k: nat) => k <= n && HandedAt(job, n, k)
  }

  lemma FirstHanded(job: Job, n: nat)
    requires Fresh(job)
    ensures HandedThen(job, n)(0)
  {
    assert At(ExpiringRun(job, n), 0) == [];
  }

  lemma HandedKept(job: Job, n: nat, m: nat)
    requires Fresh(job) && m < n
    ensures Runs.Kept(HandedThen(job, n), m)
  {
    if HandedThen(job, n)(m) {
      NextHanded(job, n, m);
    }
  }

  lemma HandedAgain(job: Job, n: nat, k: nat)
    requires Fresh(job) && k <= n
    ensures HandedThen(job, n)(k)
  {
    FirstHanded(job, n);
    forall m | 0 <= m < n ensures Runs.Kept(HandedThen(job, n), m) {
      HandedKept(job, n, m);
    }
    Runs.UpTo(HandedThen(job, n), n, k);
  }

  /** The only job of the queue after `k` claims of an expiring run. */
  function Handed(job: Job, k: nat): Job {
    if k == 0 then job else
      job.(attempts := k % (U32_MAX + 1), status := Leased,
           leasedAt := Some(Moment(job, k - 1)), leaseExpiresAt := Some(Moment(job, k)))
  }

  lemma ClaimAgain(job: Job, k: nat, before: seq<Job>)
    requires Fresh(job) && before == [Handed(job, k)]
    ensures Step(before, ClaimOp(Moment(job, k), Moment(job, k), 1)) ==
            ([Handed(job, k + 1)], Jobs([Handed(job, k + 1)]))
  {
    ClaimAlone(Handed(job, k), Moment(job, k), Moment(job, k), 1);
  }

  lemma ClaimAlone(job: Job, release: i64, now: i64, leaseMs: u64)
    requires Eligible(ReleaseJob(job, release), now)
    ensures var leased := [LeaseJob(true, ReleaseJob(job, release), now, SaturatingAdd(now, leaseMs))];
      ClaimOne([job], release, now, leaseMs) == (leased, leased)
  {
    var r := ReleaseJob(job, release);
    assert Release([job], release) == [r];
    Ordering.SortFixpoint(ByPriority, [r]);
    assert FirstEligible([r], now) == 0;
    var job' := LeaseJob(true, r, now, SaturatingAdd(now, leaseMs));
    assert [r][0 := job'] == [job'];
  }

  // ------------------------------------------------------- several queues

  datatype QueuedOp = On(queue: string, op: Op)

  /** Only a push brings a queue into being. */
  ghost function QueuesStep(queues: Queues, on: QueuedOp): Queues {
    if on.queue in queues || on.op.PushOp?
    then queues[on.queue := Step(JobsIn(queues, on.queue), on.op).0]
    else queues
  }

  ghost function QueuesAt(ops: seq<QueuedOp>, k: nat): Queues
    requires k <= |ops|
  {
    if k == 0 then map[] else QueuesStep(QueuesAt(ops, k - 1), ops[k - 1])
  }

  function Addressed(ops: seq<QueuedOp>, k: nat, name: string): seq<Op>
    requires k <= |ops|
  {
    if k == 0 then [] else
      Addressed(ops, k - 1, name) + if ops[k - 1].queue == name then [ops[k - 1].op] else []
  }

  lemma {:induction false} AtOfPrefix(ops: seq<Op>, op: Op, k: nat)
    requires k <= |ops|
    ensures At(ops + [op], k) == At(ops, k)
  {
    if k > 0 {
      AtOfPrefix(ops, op, k - 1);
      assert (ops + [op])[k - 1] == ops[k - 1];
    }
  }

  lemma AtOfOneMore(ops: seq<Op>, op: Op)
    ensures At(ops + [op], |ops| + 1) == Step(At(ops, |ops|), op).0
  {
    AtOfPrefix(ops, op, |ops|);
  }

  lemma EmptyQueueStays(op: Op)
    requires !op.PushOp?
    ensures Step([], op).0 == []
  {
    if op.ClaimManyOp? {
      assert ClaimUpTo(false, [], op.release, op.now, op.leaseMs, op.limit).0 == [];
    }
    if op.AckManyOp? {
      assert CompleteAll([], op.ids, op.now) == [];
    }
  }

  lemma OneQueueMoves(queues: Queues, on: QueuedOp, name: string)
    ensures JobsIn(QueuesStep(queues, on), name) ==
            if on.queue == name then Step(JobsIn(queues, name), on.op).0 else JobsIn(queues, name)
  {
    if !on.op.PushOp? {
      EmptyQueueStays(on.op);
    }
  }

  /** Queues do not interfere: in a run over many queues each one is in the state its own operations alone
      would have brought it to, so the results above hold of each queue of an engine. */
  lemma {:induction false} QueuesAreIndependent(ops: seq<QueuedOp>, k: nat, name: string)
    requires k <= |ops|
    ensures JobsIn(QueuesAt(ops, k), name) == At(Addressed(ops, k, name), |Addressed(ops, k, name)|)
  {
    if k > 0 {
      QueuesAreIndependent(ops, k - 1, name);
      var queues, on, own := QueuesAt(ops, k - 1), ops[k - 1], Addressed(ops, k - 1, name);
      assert QueuesAt(ops, k) == QueuesStep(queues, on);
      OneQueueMoves(queues, on, name);
      RunGrows(own, on, name, JobsIn(queues, name), JobsIn(QueuesStep(queues, on), name));
    }
  }

  lemma RunGrows(own: seq<Op>, on: QueuedOp, name: string, before: seq<Job>, after: seq<Job>)
    requires before == At(own, |own|)
    requires after == if on.queue == name then Step(before, on.op).0 else before
    ensures var grown := own + if on.queue == name then [on.op] else [];
      after == At(grown, |grown|)
  {
    if on.queue == name {
      AtOfOneMore(own, on.op);
    } else {
      assert own + [] == own;
    }
  }
}
