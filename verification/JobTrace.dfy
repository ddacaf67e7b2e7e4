/** The life of one queue job, as the list of its states and of what each operation did to it. */
module JobTrace {
  import opened Prelude
  import opened Queue
  import opened QueueRuns

  /** One operation of the run and what it did to the job. */
  datatype Tick = Tick(op: Op, claimed: bool, expired: bool, acked: bool, nacked: bool)

  /** `jobs[k]` is the job after `k` operations, absent until it is pushed. */
  datatype Trace = Trace(id: string, jobs: seq<Option<Job>>, ticks: seq<Tick>)

  predicate LawfulTick(id: string, before: Option<Job>, after: Option<Job>, t: Tick) {
    && (t.claimed ==> IsClaim(t.op))
    && (t.acked ==> t.op.AckOp? || t.op.AckManyOp?)
    && (t.nacked ==> t.op.NackOp?)
    && match before
       case None =>
         && after == (if t.op.PushOp? && t.op.job.id == id then Some(t.op.job) else None)
         && !t.claimed && !t.expired && !t.acked && !t.nacked
       case Some(j) =>
         && after.Some? && Moves(j, after.value, t.op, t.claimed, t.acked, t.nacked)
         && (t.expired <==> Releases(t.op) && Expired(j, t.op.release))
  }

  ghost predicate Lawful(t: Trace) {
    && |t.jobs| == |t.ticks| + 1 && t.jobs[0].None?
    && forall k :: 0 <= k < |t.ticks| ==> LawfulTick(t.id, t.jobs[k], t.jobs[k + 1], t.ticks[k])
  }

  // ------------------------------------------------------- terminal states

  lemma {:induction false} TerminalForever(t: Trace, k: nat, n: nat)
    requires Lawful(t) && k <= n <= |t.ticks|
    requires t.jobs[k].Some? && t.jobs[k].value.status in {Completed, Dead}
    ensures t.jobs[n] == t.jobs[k]
    ensures forall m :: k <= m < n ==>
      !t.ticks[m].claimed && !t.ticks[m].expired && !t.ticks[m].acked && !t.ticks[m].nacked
    decreases n
  {
    if k < n {
      TerminalForever(t, k, n - 1);
      assert LawfulTick(t.id, t.jobs[n - 1], t.jobs[n - 1 + 1], t.ticks[n - 1]);
    }
  }

  // -------------------------------------------------------- lease exclusion

  /** Expiry of the lease that the claim at position `i` grants. */
  function LeaseEnd(t: Trace, i: nat): i64
    requires i < |t.ticks| && IsClaim(t.ticks[i].op)
  {
    SaturatingAdd(t.ticks[i].op.now, t.ticks[i].op.leaseMs)
  }

  lemma {:induction false} LeaseHeld(t: Trace, i: nat, k: nat)
    requires Lawful(t) && i < k <= |t.ticks| && IsClaim(t.ticks[i].op) && t.ticks[i].claimed
    requires forall m :: i < m < k ==> !t.ticks[m].nacked
    requires forall m :: i < m < k && Releases(t.ticks[m].op) ==> t.ticks[m].op.release < LeaseEnd(t, i)
    ensures t.jobs[k].Some?
    ensures t.jobs[k].value.status == Completed
            || (t.jobs[k].value.status == Leased && t.jobs[k].value.leaseExpiresAt == Some(LeaseEnd(t, i)))
    decreases k
  {
    assert LawfulTick(t.id, t.jobs[k - 1], t.jobs[k - 1 + 1], t.ticks[k - 1]);
    if i + 1 < k {
      LeaseHeld(t, i, k - 1);
    }
  }

  /** Between two claims with no rejection, some claim read a clock at or past the first lease's expiry. */
  lemma LeaseRunsOut(t: Trace, i: nat, j: nat) returns (m: nat)
    requires Lawful(t) && i < j < |t.ticks| && IsClaim(t.ticks[i].op) && t.ticks[i].claimed && t.ticks[j].claimed
    requires forall m :: i < m < j ==> !t.ticks[m].nacked
    ensures i < m <= j && Releases(t.ticks[m].op) && LeaseEnd(t, i) <= t.ticks[m].op.release
  {
    if m' :| i < m' < j && Releases(t.ticks[m'].op) && LeaseEnd(t, i) <= t.ticks[m'].op.release {
      return m';
    }
    LeaseHeld(t, i, j);
    assert LawfulTick(t.id, t.jobs[j], t.jobs[j + 1], t.ticks[j]);
    return j;
  }

  // ------------------------------------------------------- retry and delay

  lemma {:induction false} AvailabilityKept(t: Trace, i: nat, j: nat)
    requires Lawful(t) && i <= j <= |t.ticks| && t.jobs[i].Some?
    requires forall m :: i <= m < j ==> !t.ticks[m].nacked
    ensures t.jobs[j].Some? && t.jobs[j].value.availableAt == t.jobs[i].value.availableAt
    decreases j
  {
    if i < j {
      AvailabilityKept(t, i, j - 1);
      assert LawfulTick(t.id, t.jobs[j - 1], t.jobs[j - 1 + 1], t.ticks[j - 1]);
    }
  }

  lemma ClaimedWhenAvailable(t: Trace, j: nat)
    requires Lawful(t) && j < |t.ticks| && t.ticks[j].claimed
    ensures IsClaim(t.ticks[j].op) && t.jobs[j].Some? && t.jobs[j].value.availableAt <= t.ticks[j].op.now
  {
    assert LawfulTick(t.id, t.jobs[j], t.jobs[j + 1], t.ticks[j]);
  }

  lemma RetryDelay(t: Trace, i: nat, j: nat)
    requires Lawful(t) && i < j < |t.ticks| && t.ticks[i].op.NackOp? && t.ticks[i].nacked && t.ticks[j].claimed
    requires forall m :: i < m < j ==> !t.ticks[m].nacked
    ensures IsClaim(t.ticks[j].op) && SaturatingAdd(t.ticks[i].op.now, t.ticks[i].op.delayMs) <= t.ticks[j].op.now
  {
    assert LawfulTick(t.id, t.jobs[i], t.jobs[i + 1], t.ticks[i]);
    AvailabilityKept(t, i + 1, j);
    ClaimedWhenAvailable(t, j);
    if t.jobs[i + 1].value.status == Dead {
      TerminalForever(t, i + 1, |t.ticks|);
    }
  }

  // ------------------------------------------------ until the first claim

  /** A rejection would put the job back rather than end it. */
  predicate Retriable(j: Job) {
    j.status == Leased && j.attempts < j.maxAttempts
  }

  /** Nothing that matters to the first claim has changed since the push. */
  predicate Pending(pushed: Job, j: Job) {
    j.status == Dead ||
    (j.availableAt == pushed.availableAt && j.attempts == pushed.attempts && j.maxAttempts == pushed.maxAttempts &&
     (j.status == Leased ==> pushed.status == Leased))
  }

  lemma {:induction false} StaysPending(t: Trace, i: nat, k: nat)
    requires Lawful(t) && i <= k <= |t.ticks| && t.jobs[i].Some? && !Retriable(t.jobs[i].value)
    requires forall m :: i <= m < k ==> !t.ticks[m].claimed
    ensures t.jobs[k].Some? && Pending(t.jobs[i].value, t.jobs[k].value)
    decreases k
  {
    if i < k {
      StaysPending(t, i, k - 1);
      assert LawfulTick(t.id, t.jobs[k - 1], t.jobs[k - 1 + 1], t.ticks[k - 1]);
    }
  }

  lemma {:induction false} FirstClaim(t: Trace, i: nat, j: nat) returns (c: nat)
    requires i <= j < |t.ticks| && t.ticks[j].claimed
    ensures i <= c <= j && t.ticks[c].claimed && forall m :: i <= m < c ==> !t.ticks[m].claimed
    decreases j
  {
    if m :| i <= m < j && t.ticks[m].claimed {
      c := FirstClaim(t, i, m);
    } else {
      c := j;
    }
  }

  /** The first claim of a job that a rejection could not put back waits for the time the job has at `i`. */
  lemma FirstClaimIsTimely(t: Trace, i: nat, j: nat) returns (c: nat)
    requires Lawful(t) && i <= j < |t.ticks| && t.jobs[i].Some? && !Retriable(t.jobs[i].value) && t.ticks[j].claimed
    ensures i <= c <= j && t.ticks[c].claimed && IsClaim(t.ticks[c].op)
    ensures t.jobs[i].value.availableAt <= t.ticks[c].op.now
  {
    c := FirstClaim(t, i, j);
    StaysPending(t, i, c);
    assert LawfulTick(t.id, t.jobs[c], t.jobs[c + 1], t.ticks[c]);
  }

  // ---------------------------------------------------- attempt accounting

  function Did(kind: Kind, t: Tick): bool {
    match kind
    case Claimed => t.claimed
    case Expiry => t.expired
    case Acked => t.acked
    case Nacked => t.nacked
  }

  /** How often something happened to the job in the first `k` operations. */
  function Tally(kind: Kind, ticks: seq<Tick>, k: nat): nat
    requires k <= |ticks|
  {
    if k == 0 then 0 else Tally(kind, ticks, k - 1) + if Did(kind, ticks[k - 1]) then 1 else 0
  }

  /** A job as `QueueJob::new` builds it, with any priority, availability time and texts. */
  predicate Fresh(j: Job) {
    && j.attempts == 0 && j.status == Ready && j.leasedAt.None? && j.leaseExpiresAt.None?
    && j.completedAt.None? && j.deadAt.None?
  }

  function AtLeastOne(n: nat): nat {
    if n == 0 then 1 else n
  }

  /** A lease of a job that has used its attempts up runs out. */
  predicate Overrun(job: Option<Job>, t: Tick) {
    t.expired && job.Some? && job.value.attempts >= AtLeastOne(job.value.maxAttempts)
  }

  /** How many leases have run out at or past the limit in the first `k` operations. */
  function Overruns(t: Trace, k: nat): nat
    requires k <= |t.ticks| && k <= |t.jobs|
  {
    if k == 0 then 0 else Overruns(t, k - 1) + if Overrun(t.jobs[k - 1], t.ticks[k - 1]) then 1 else 0
  }

  /** The attempts the job has had, and the one that it waits for. */
  function Due(j: Job): nat {
    j.attempts + if j.status == Ready then 1 else 0
  }

  function Excess(n: nat, limit: nat): nat {
    if n > limit then n - limit else 0
  }

  predicate Limited(j: Job, claims: nat, expiries: nat, overruns: nat) {
    && overruns <= expiries
    && Due(j) <= AtLeastOne(j.maxAttempts) + overruns
    && (claims <= U32_MAX ==> overruns == Excess(Due(j), AtLeastOne(j.maxAttempts)))
  }

  /** Claims are exactly the rejections, the acknowledgements, the expiries and the lease in force; the
      counter equals the claims while these fit a u32; attempts exceed the limit by at most the overruns, and
      by exactly these while the claims fit a u32; a dead job has used its attempts up; the time stamps agree
      with the status. */
  predicate Accounted(job: Option<Job>, claims: nat, expiries: nat, acks: nat, nacks: nat, overruns: nat) {
    match job
    case None => claims == expiries == acks == nacks == overruns == 0
    case Some(j) =>
      && claims == nacks + acks + expiries + (if j.status == Leased then 1 else 0)
      && acks == (if j.status == Completed then 1 else 0)
      && (claims <= U32_MAX ==> j.attempts == claims)
      && Limited(j, claims, expiries, overruns)
      && (j.status == Dead ==> j.attempts >= j.maxAttempts)
      && (j.status == Leased ==> j.leasedAt.Some? && j.leaseExpiresAt.Some?)
      && (j.status in {Ready, Dead} ==> j.leasedAt.None? && j.leaseExpiresAt.None?)
      && (j.status == Completed <==> j.completedAt.Some?)
      && (j.status == Dead <==> j.deadAt.Some?)
  }

  predicate AccountedAt(t: Trace, k: nat)
    requires k < |t.jobs| && k <= |t.ticks|
  {
    Accounted(t.jobs[k], Tally(Claimed, t.ticks, k), Tally(Expiry, t.ticks, k),
              Tally(Acked, t.ticks, k), Tally(Nacked, t.ticks, k), Overruns(t, k))
  }

  lemma LimitTick(id: string, j: Job, after: Option<Job>, t: Tick,
                  claims: nat, expiries: nat, acks: nat, nacks: nat, overruns: nat)
    requires LawfulTick(id, Some(j), after, t) && Accounted(Some(j), claims, expiries, acks, nacks, overruns)
    ensures after.Some?
    ensures Limited(after.value, claims + (if t.claimed then 1 else 0), expiries + (if t.expired then 1 else 0),
                    overruns + (if Overrun(Some(j), t) then 1 else 0))
  {
  }

  lemma AccountTick(id: string, before: Option<Job>, after: Option<Job>, t: Tick,
                    claims: nat, expiries: nat, acks: nat, nacks: nat, overruns: nat)
    requires LawfulTick(id, before, after, t) && Accounted(before, claims, expiries, acks, nacks, overruns)
    requires t.op.PushOp? ==> Fresh(t.op.job)
    ensures Accounted(after, claims + (if t.claimed then 1 else 0), expiries + (if t.expired then 1 else 0),
                      acks + (if t.acked then 1 else 0), nacks + (if t.nacked then 1 else 0),
                      overruns + (if Overrun(before, t) then 1 else 0))
  {
    if before.Some? {
      LimitTick(id, before.value, after, t, claims, expiries, acks, nacks, overruns);
    }
  }

  lemma NextAccounted(t: Trace, k: nat)
    requires Lawful(t) && k < |t.ticks| && AccountedAt(t, k)
    requires t.ticks[k].op.PushOp? ==> Fresh(t.ticks[k].op.job)
    ensures AccountedAt(t, k + 1)
  {
    assert LawfulTick(t.id, t.jobs[k], t.jobs[k + 1], t.ticks[k]);
    AccountTick(t.id, t.jobs[k], t.jobs[k + 1], t.ticks[k], Tally(Claimed, t.ticks, k),
                Tally(Expiry, t.ticks, k), Tally(Acked, t.ticks, k), Tally(Nacked, t.ticks, k), Overruns(t, k));
  }

  ghost predicate PushesFresh(t: Trace) {
    forall i :: 0 <= i < |t.ticks| && t.ticks[i].op.PushOp? ==> Fresh(t.ticks[i].op.job)
  }

  lemma {:induction false} AlwaysAccounted(t: Trace, k: nat)
    requires Lawful(t) && k <= |t.ticks| && PushesFresh(t)
    ensures AccountedAt(t, k)
  {
    if k > 0 {
      AlwaysAccounted(t, k - 1);
      NextAccounted(t, k - 1);
    }
  }

  // -------------------------------------------- when the limit is exceeded

  /** The operation at `c` hands the job out after an overrun, which may be its own. */
  predicate HandedOver(t: Trace, c: nat)
    requires c < |t.ticks| && c < |t.jobs|
  {
    t.ticks[c].claimed && Overruns(t, c + 1) > 0
  }

  /** Some claim among the first `k` operations came with or after an overrun. */
  ghost predicate EverHandedOver(t: Trace, k: nat)
    requires k < |t.jobs| && k <= |t.ticks|
  {
    exists c :: 0 <= c < k && HandedOver(t, c)
  }

  /** More claims than the limit, exactly when one of them came after an overrun. */
  ghost predicate ExceededIff(t: Trace, k: nat)
    requires k < |t.jobs| && k <= |t.ticks|
  {
    t.jobs[k].Some? ==>
      (Tally(Claimed, t.ticks, k) > AtLeastOne(t.jobs[k].value.maxAttempts) <==> EverHandedOver(t, k))
  }

  lemma NothingBeforePush(t: Trace, k: nat)
    requires Lawful(t) && k <= |t.ticks| && t.jobs[k].None?
    ensures forall c :: 0 <= c < k ==> !t.ticks[c].claimed
  {
    forall c | 0 <= c < k ensures !t.ticks[c].claimed {
      StillAbsent(t, c, k);
      assert LawfulTick(t.id, t.jobs[c], t.jobs[c + 1], t.ticks[c]);
    }
  }

  lemma {:induction false} StillAbsent(t: Trace, c: nat, k: nat)
    requires Lawful(t) && c <= k <= |t.ticks| && t.jobs[k].None?
    ensures t.jobs[c].None?
    decreases k
  {
    if c < k {
      assert LawfulTick(t.id, t.jobs[k - 1], t.jobs[k - 1 + 1], t.ticks[k - 1]);
      StillAbsent(t, c, k - 1);
    }
  }

  lemma HandedOverNext(t: Trace, k: nat)
    requires k < |t.ticks| && k + 1 < |t.jobs|
    ensures EverHandedOver(t, k + 1) <==> EverHandedOver(t, k) || HandedOver(t, k)
  {
  }

  lemma NextExceeded(t: Trace, k: nat)
    requires Lawful(t) && k < |t.ticks| && AccountedAt(t, k) && ExceededIff(t, k)
    ensures ExceededIff(t, k + 1)
  {
    HandedOverNext(t, k);
    if t.jobs[k].None? {
      NothingBeforePush(t, k);
      PushTick(t, k);
    } else if t.ticks[k].claimed {
      ClaimPastLimit(t, k);
    } else {
      QuietTick(t, k);
    }
  }

  lemma PushTick(t: Trace, k: nat)
    requires Lawful(t) && k < |t.ticks| && AccountedAt(t, k) && t.jobs[k].None?
    ensures Tally(Claimed, t.ticks, k + 1) == 0 && !t.ticks[k].claimed
  {
    assert LawfulTick(t.id, t.jobs[k], t.jobs[k + 1], t.ticks[k]);
  }

  lemma QuietTick(t: Trace, k: nat)
    requires Lawful(t) && k < |t.ticks| && t.jobs[k].Some? && !t.ticks[k].claimed
    ensures t.jobs[k + 1].Some? && t.jobs[k + 1].value.maxAttempts == t.jobs[k].value.maxAttempts
    ensures Tally(Claimed, t.ticks, k + 1) == Tally(Claimed, t.ticks, k)
  {
    assert LawfulTick(t.id, t.jobs[k], t.jobs[k + 1], t.ticks[k]);
  }

  /** A claim goes past the limit exactly when there has been an overrun. */
  lemma ClaimPastLimit(t: Trace, k: nat)
    requires Lawful(t) && k < |t.ticks| && AccountedAt(t, k) && t.ticks[k].claimed
    ensures t.jobs[k].Some? && t.jobs[k + 1].Some?
    ensures t.jobs[k + 1].value.maxAttempts == t.jobs[k].value.maxAttempts
    ensures Tally(Claimed, t.ticks, k + 1) <= U32_MAX + 1 ==>
      (Tally(Claimed, t.ticks, k + 1) > AtLeastOne(t.jobs[k].value.maxAttempts) <==> HandedOver(t, k))
  {
    assert LawfulTick(t.id, t.jobs[k], t.jobs[k + 1], t.ticks[k]);
  }

  lemma {:induction false} AlwaysExceededIff(t: Trace, k: nat)
    requires Lawful(t) && PushesFresh(t) && k <= |t.ticks|
    ensures ExceededIff(t, k)
  {
    if k > 0 {
      AlwaysExceededIff(t, k - 1);
      AlwaysAccounted(t, k - 1);
      NextExceeded(t, k - 1);
    }
  }
}
