/** Whole runs of one queue: every sequence of pushes, claims, acknowledgements and rejections. */
module QueueRuns {
  import opened Prelude
  import opened Ordering
  import opened Queue
  import opened Runs

  datatype Op =
    | PushOp(job: Job)
    | ClaimOp(release: i64, now: i64, leaseMs: u64)
    | ClaimManyOp(release: i64, now: i64, leaseMs: u64, limit: nat)
    | AckOp(id: string, now: i64)
    | AckManyOp(ids: seq<string>, now: i64)
    | NackOp(id: string, now: i64, delayMs: u64, error: string)

  datatype Outcome = Jobs(jobs: seq<Job>) | Failed(error: Error)

  function FromOption(r: Result<Option<Job>, Error>): Outcome {
    match r
    case Ok(None) => Jobs([])
    case Ok(Some(j)) => Jobs([j])
    case Err(e) => Failed(e)
  }

  function FromSeq(r: Result<seq<Job>, Error>): Outcome {
    match r
    case Ok(js) => Jobs(js)
    case Err(e) => Failed(e)
  }

  ghost function Step(q: seq<Job>, op: Op): (seq<Job>, Outcome) {
    match op
    case PushOp(job) => var (q', j) := Push(q, job); (q', Jobs([j]))
    case ClaimOp(release, now, leaseMs) => var (q', js) := ClaimOne(q, release, now, leaseMs); (q', Jobs(js))
    case ClaimManyOp(release, now, leaseMs, limit) =>
      var (q', r) := ClaimMany(q, release, now, leaseMs, limit); (q', FromSeq(r))
    case AckOp(id, now) => var (q', r) := AckOne(q, id, now); (q', FromOption(r))
    case AckManyOp(ids, now) => var (q', r) := AckMany(q, ids, now); (q', FromSeq(r))
    case NackOp(id, now, delayMs, error) => var (q', r) := NackOne(q, id, now, delayMs, error); (q', FromOption(r))
  }

  /** The queue after the first `k` operations, starting empty. */
  ghost function At(ops: seq<Op>, k: nat): seq<Job>
    requires k <= |ops|
  {
    if k == 0 then [] else Step(At(ops, k - 1), ops[k - 1]).0
  }

  // -------------------------------------------------- what happens to a job

  ghost predicate Returned(q: seq<Job>, op: Op, id: string) {
    var out := Step(q, op).1;
    out.Jobs? && exists j :: j in out.jobs && j.id == id
  }

  predicate IsClaim(op: Op) {
    op.ClaimOp? || op.ClaimManyOp?
  }

  /** The claim passes its size checks and so reaches `release_expired_leases`. */
  predicate Releases(op: Op) {
    op.ClaimOp? || (op.ClaimManyOp? && 0 < op.limit <= MAX_QUEUE_BATCH_ITEMS)
  }

  datatype Kind = Claimed | Expiry | Acked | Nacked

  /** The operation claims, expires, acknowledges or rejects the job. */
  ghost predicate Happens(kind: Kind, q: seq<Job>, op: Op, id: string) {
    match kind
    case Claimed => IsClaim(op) && Returned(q, op, id)
    case Expiry => Releases(op) && Find(q, id).Some? && Expired(Find(q, id).value, op.release)
    case Acked => (op.AckOp? || op.AckManyOp?) && Returned(q, op, id)
    case Nacked => op.NackOp? && Returned(q, op, id)
  }

  /** The only ways an operation may change a stored job. */
  predicate Moves(j: Job, j': Job, op: Op, claimed: bool, acked: bool, nacked: bool) {
    match op
    case PushOp(_) => j' == j
    case AckOp(_, now) => if acked then j.status == Leased && j' == CompleteJob(j, now) else j' == j
    case AckManyOp(_, now) => if acked then j.status == Leased && j' == CompleteJob(j, now) else j' == j
    case NackOp(_, now, delayMs, error) =>
      if nacked then j.status == Leased && j' == NackJob(j, now, delayMs, error) else j' == j
    case _ =>
      if !Releases(op) then !claimed && j' == j
      else
        var r := ReleaseJob(j, op.release);
        if claimed then Eligible(r, op.now) && j' == LeaseJob(op.ClaimOp?, r, op.now, SaturatingAdd(op.now, op.leaseMs))
        else j' == r
  }

  /** `Moves`, with what happened read off the operation's own answer. */
  ghost predicate MovesIn(q: seq<Job>, j: Job, j': Job, op: Op) {
    Moves(j, j', op, Happens(Claimed, q, op, j.id), Happens(Acked, q, op, j.id), Happens(Nacked, q, op, j.id))
  }

  lemma FindUpdated(q: seq<Job>, i: nat, job: Job, id: string)
    requires DistinctIds(q) && i < |q| && job.id == q[i].id
    ensures DistinctIds(q[i := job])
    ensures Find(q[i := job], id) == if id == job.id then Some(job) else Find(q, id)
  {
    var q' := q[i := job];
    assert forall k :: 0 <= k < |q| ==> q'[k].id == q[k].id;
    forall a, b | 0 <= a < b < |q'| ensures DiffId(q'[a], q'[b]) {
      assert DiffId(q[a], q[b]);
    }
    FindAt(q, i);
    FindAt(q', i);
  }

  lemma LeaseChosenFacts(wrap: bool, p: seq<Job>, now: i64, expires: i64, limit: nat)
    requires DistinctIds(p)
    ensures var q', out := LeaseChosen(wrap, p, now, expires, limit), Taken(wrap, p, now, expires, limit, |p|);
      && DistinctIds(q')
      && (forall c :: c in out ==> Find(q', c.id) == Some(c))
      && (forall i :: 0 <= i < |p| ==> q'[i].id == p[i].id && Find(q', p[i].id) == Some(q'[i]))
  {
    var q', out := LeaseChosen(wrap, p, now, expires, limit), Taken(wrap, p, now, expires, limit, |p|);
    forall a, b | 0 <= a < b < |q'| ensures DiffId(q'[a], q'[b]) {
      assert DiffId(p[a], p[b]);
    }
    forall i | 0 <= i < |p| ensures Find(q', p[i].id) == Some(q'[i]) {
      FindAt(q', i);
    }
    TakenFromChosen(wrap, p, now, expires, limit, |p|);
  }

  /** The claimed ids are those of the chosen positions. */
  lemma TakenIds(wrap: bool, p: seq<Job>, now: i64, expires: i64, limit: nat, i: nat)
    requires DistinctIds(p) && i < |p|
    ensures (exists c :: c in Taken(wrap, p, now, expires, limit, |p|) && c.id == p[i].id) <==> Chosen(p, now, limit, i)
  {
    var out := Taken(wrap, p, now, expires, limit, |p|);
    TakenFromChosen(wrap, p, now, expires, limit, |p|);
    if Chosen(p, now, limit, i) {
      assert LeaseJob(wrap, p[i], now, expires) in out;
    } else {
      forall c | c in out ensures c.id != p[i].id {
        var k :| 0 <= k < |p| && Chosen(p, now, limit, k) && c == LeaseJob(wrap, p[k], now, expires);
        assert k != i;
        assert if k < i then DiffId(p[k], p[i]) else DiffId(p[i], p[k]);
      }
    }
  }

  /** What an operation may do, seen from one job. Jobs appear only by being pushed, never disappear, change
      only as `Moves` allows, stay distinct, and a job the caller is told about is the job that is stored. */
  ghost predicate StepFacts(q: seq<Job>, op: Op, id: string) {
    var (q', out) := Step(q, op);
    && DistinctIds(q')
    && (Find(q, id).None? ==>
          Find(q', id) == (if op.PushOp? && op.job.id == id then Some(op.job) else None)
          && forall kind :: !Happens(kind, q, op, id))
    && (Find(q, id).Some? ==> Find(q', id).Some? && MovesIn(q, Find(q, id).value, Find(q', id).value, op))
    && (out.Jobs? ==> forall c :: c in out.jobs ==> Find(q', c.id) == Some(c))
  }

  /** What leasing the chosen jobs of a queue in claim order does to one job. */
  lemma LeaseStep(wrap: bool, p: seq<Job>, now: i64, expires: i64, limit: nat, id: string)
    requires DistinctIds(p)
    ensures var q', out := LeaseChosen(wrap, p, now, expires, limit), Taken(wrap, p, now, expires, limit, |p|);
      && DistinctIds(q')
      && (Find(p, id).None? ==> Find(q', id).None? && forall c :: c in out ==> c.id != id)
      && (Find(p, id).Some? ==>
            var j := Find(p, id).value;
            if exists c :: c in out && c.id == id
            then Eligible(j, now) && Find(q', id) == Some(LeaseJob(wrap, j, now, expires))
            else Find(q', id) == Some(j))
      && (forall c :: c in out ==> Find(q', c.id) == Some(c))
  {
    LeaseChosenFacts(wrap, p, now, expires, limit);
    var i := IndexOf(p, id);
    if i < |p| {
      TakenIds(wrap, p, now, expires, limit, i);
    } else {
      assert forall k :: 0 <= k < |p| ==> p[k].id != id;
    }
  }

  lemma ClaimUpToStep(wrap: bool, q: seq<Job>, release: i64, now: i64, leaseMs: u64, limit: nat, id: string)
    requires DistinctIds(q)
    ensures var (q', out) := ClaimUpTo(wrap, q, release, now, leaseMs, limit);
      && DistinctIds(q')
      && (Find(q, id).None? ==> Find(q', id).None? && forall c :: c in out ==> c.id != id)
      && (Find(q, id).Some? ==>
            var r := ReleaseJob(Find(q, id).value, release);
            if exists c :: c in out && c.id == id
            then Eligible(r, now) && Find(q', id) == Some(LeaseJob(wrap, r, now, SaturatingAdd(now, leaseMs)))
            else Find(q', id) == Some(r))
      && (forall c :: c in out ==> Find(q', c.id) == Some(c))
  {
    PreparedFacts(q, release);
    FindPrepared(q, release, id);
    LeaseStep(wrap, Prepared(q, release), now, SaturatingAdd(now, leaseMs), limit, id);
  }

  lemma SingleClaimStep(q: seq<Job>, release: i64, now: i64, leaseMs: u64, id: string)
    requires DistinctIds(q)
    ensures StepFacts(q, ClaimOp(release, now, leaseMs), id)
  {
    OneIsBatchOfOne(q, release, now, leaseMs);
    ClaimUpToStep(true, q, release, now, leaseMs, 1, id);
  }

  lemma BatchClaimStep(q: seq<Job>, release: i64, now: i64, leaseMs: u64, limit: nat, id: string)
    requires DistinctIds(q)
    ensures StepFacts(q, ClaimManyOp(release, now, leaseMs, limit), id)
  {
    ClaimUpToStep(false, q, release, now, leaseMs, limit, id);
  }

  lemma CompleteStep(q: seq<Job>, ids: seq<string>, now: i64, id: string)
    requires DistinctIds(q)
    ensures var q' := CompleteAll(q, ids, now);
      && DistinctIds(q') && IndexOf(q', id) == IndexOf(q, id)
      && (Find(q, id).None? ==> Find(q', id).None?)
      && (Find(q, id).Some? ==>
            Find(q', id) == Some(if id in ids then CompleteJob(Find(q, id).value, now) else Find(q, id).value))
  {
    var q' := CompleteAll(q, ids, now);
    forall a, b | 0 <= a < b < |q'| ensures DiffId(q'[a], q'[b]) {
      assert DiffId(q[a], q[b]);
    }
    var i, k := IndexOf(q, id), IndexOf(q', id);
    assert i < |q| ==> q'[i].id == q[i].id;
    assert k < |q| ==> q'[k].id == q[k].id;
  }

  lemma CompletionsFacts(q: seq<Job>, ids: seq<string>, now: i64, id: string)
    requires DistinctIds(q) && forall x :: x in ids ==> LeasedIn(q, x)
    ensures var q', out := CompleteAll(q, ids, now), Completions(q, ids, now);
      && (forall c :: c in out ==> Find(q', c.id) == Some(c))
      && ((exists c :: c in out && c.id == id) <==> id in ids)
  {
    var q', out := CompleteAll(q, ids, now), Completions(q, ids, now);
    forall c | c in out ensures Find(q', c.id) == Some(c) && c.id in ids {
      var n :| 0 <= n < |ids| && c == out[n];
      assert LeasedIn(q, ids[n]);
      CompleteStep(q, ids, now, ids[n]);
    }
    if id in ids {
      var n :| 0 <= n < |ids| && ids[n] == id;
      assert LeasedIn(q, id);
      assert out[n] in out && out[n].id == id;
    }
  }

  lemma AckManyStep(q: seq<Job>, ids: seq<string>, now: i64, id: string)
    requires DistinctIds(q)
    ensures StepFacts(q, AckManyOp(ids, now), id)
  {
    if AckMany(q, ids, now).1.Ok? {
      CompleteStep(q, ids, now, id);
      CompletionsFacts(q, ids, now, id);
      assert id in ids ==> LeasedIn(q, id);
    }
  }

  lemma AckStep(q: seq<Job>, id: string, now: i64, other: string)
    requires DistinctIds(q)
    ensures StepFacts(q, AckOp(id, now), other)
  {
    var i := IndexOf(q, id);
    if i < |q| && q[i].status == Leased {
      var job := CompleteJob(q[i], now);
      FindUpdated(q, i, job, other);
      FindUpdated(q, i, job, id);
      assert job in [job];
    }
  }

  lemma NackStep(q: seq<Job>, id: string, now: i64, delayMs: u64, error: string, other: string)
    requires DistinctIds(q)
    ensures StepFacts(q, NackOp(id, now, delayMs, error), other)
  {
    var i := IndexOf(q, id);
    if i < |q| && q[i].status == Leased {
      var job := NackJob(q[i], now, delayMs, error);
      FindUpdated(q, i, job, other);
      FindUpdated(q, i, job, id);
      assert job in [job];
    }
  }

  lemma PushStep(q: seq<Job>, job: Job, id: string)
    requires DistinctIds(q)
    ensures StepFacts(q, PushOp(job), id)
  {
    var i := IndexOf(q, job.id);
    if i == |q| {
      var q' := q + [job];
      forall a, b | 0 <= a < b < |q'| ensures DiffId(q'[a], q'[b]) {
        assert b < |q| ==> DiffId(q[a], q[b]);
      }
      FindAt(q', |q|);
      var k := IndexOf(q, id);
      if k < |q| {
        FindAt(q', k);
      } else if id != job.id {
        assert forall m :: 0 <= m < |q'| ==> q'[m].id != id;
      }
    } else {
      FindAt(q, i);
    }
  }

  lemma JobStep(q: seq<Job>, op: Op, id: string)
    requires DistinctIds(q)
    ensures StepFacts(q, op, id)
  {
    match op
    case PushOp(job) => PushStep(q, job, id);
    case ClaimOp(release, now, leaseMs) => SingleClaimStep(q, release, now, leaseMs, id);
    case ClaimManyOp(release, now, leaseMs, limit) => BatchClaimStep(q, release, now, leaseMs, limit, id);
    case AckOp(x, now) => AckStep(q, x, now, id);
    case AckManyOp(ids, now) => AckManyStep(q, ids, now, id);
    case NackOp(x, now, delayMs, error) => NackStep(q, x, now, delayMs, error, id);
  }

  // ------------------------------------------------------ nothing is lost

  /** Position of the first push of `id` in the run, or the length when it is never pushed. */
  function PushedAt(ops: seq<Op>, id: string): (i: nat)
    ensures i <= |ops|
    ensures i < |ops| ==> ops[i].PushOp? && ops[i].job.id == id
    ensures forall j :: 0 <= j < i ==> !(ops[j].PushOp? && ops[j].job.id == id)
  {
    if ops == [] || (ops[0].PushOp? && ops[0].job.id == id) then 0 else 1 + PushedAt(ops[1..], id)
  }

  ghost predicate SameIdentity(a: Job, b: Job) {
    && a.queue == b.queue && a.id == b.id && a.body == b.body && a.maxAttempts == b.maxAttempts
    && a.priority == b.priority && a.createdAt == b.createdAt
  }

  lemma MovesKeepIdentity(j: Job, j': Job, op: Op, claimed: bool, acked: bool, nacked: bool)
    requires Moves(j, j', op, claimed, acked, nacked)
    ensures SameIdentity(j', j)
  {
  }

  lemma IdentityStep(q: seq<Job>, op: Op, id: string)
    requires DistinctIds(q)
    ensures var q' := Step(q, op).0;
      && DistinctIds(q')
      && (Find(q, id).None? ==> Find(q', id) == if op.PushOp? && op.job.id == id then Some(op.job) else None)
      && (Find(q, id).Some? ==> Find(q', id).Some? && SameIdentity(Find(q', id).value, Find(q, id).value))
  {
    JobStep(q, op, id);
    if Find(q, id).Some? {
      var j, j' := Find(q, id).value, Find(Step(q, op).0, id).value;
      MovesKeepIdentity(j, j', op, Happens(Claimed, q, op, j.id),
                        Happens(Acked, q, op, j.id), Happens(Nacked, q, op, j.id));
    }
  }

  /** The queue `q` holds the job exactly when it was pushed among the first `k` operations, and as it was pushed. */
  ghost predicate Holds(ops: seq<Op>, q: seq<Job>, k: nat, id: string) {
    && DistinctIds(q)
    && (Find(q, id).Some? <==> PushedAt(ops, id) < k)
    && (PushedAt(ops, id) < k && PushedAt(ops, id) < |ops| ==>
          SameIdentity(Find(q, id).value, ops[PushedAt(ops, id)].job))
  }

  lemma NextHolds(ops: seq<Op>, q: seq<Job>, k: nat, id: string)
    requires k < |ops| && Holds(ops, q, k, id)
    ensures Holds(ops, Step(q, ops[k]).0, k + 1, id)
  {
    IdentityStep(q, ops[k], id);
  }

  ghost predicate HoldsAt(ops: seq<Op>, k: nat, id: string)
    requires k <= |ops|
  {
    Holds(ops, At(ops, k), k, id)
  }

  lemma NextHoldsAt(ops: seq<Op>, k: nat, id: string)
    requires k < |ops| && HoldsAt(ops, k, id)
    ensures HoldsAt(ops, k + 1, id)
  {
    NextHolds(ops, At(ops, k), k, id);
    assert At(ops, k + 1) == Step(At(ops, k), ops[k]).0;
  }

  lemma HoldsFirst(ops: seq<Op>, id: string)
    ensures HoldsAt(ops, 0, id)
  {
    assert At(ops, 0) == [];
  }

  ghost function HoldsThen(ops: seq<Op>, id: string): nat -> bool {
    (k: nat) => k <= |ops| && HoldsAt(ops, k, id)
  }

  lemma HoldsUpTo(ops: seq<Op>, k: nat, id: string)
    requires k <= |ops|
    ensures HoldsThen(ops, id)(k)
  {
    HoldsFirst(ops, id);
    forall m | 0 <= m < |ops| ensures Kept(HoldsThen(ops, id), m) {
      if HoldsThen(ops, id)(m) {
        NextHoldsAt(ops, m, id);
      }
    }
    UpTo(HoldsThen(ops, id), |ops|, k);
  }

  lemma AlwaysHolds(ops: seq<Op>, k: nat, id: string)
    requires k <= |ops|
    ensures HoldsAt(ops, k, id)
  {
    HoldsUpTo(ops, k, id);
  }

  /** After any run the queue holds each pushed job exactly once, and no other, with the queue name, body,
      attempt limit, priority and creation stamp of its first push. */
  lemma NoJobLostOrDuplicated(ops: seq<Op>, k: nat, id: string)
    requires k <= |ops|
    ensures DistinctIds(At(ops, k))
    ensures Find(At(ops, k), id).Some? <==> PushedAt(ops, id) < k
    ensures PushedAt(ops, id) < k ==> SameIdentity(Find(At(ops, k), id).value, ops[PushedAt(ops, id)].job)
  {
    AlwaysHolds(ops, k, id);
  }

  // ---------------------------------------------------------- claim order

  /** Higher priority first, then earlier first push. */
  predicate Precedes(ops: seq<Op>, a: Job, b: Job) {
    a.priority > b.priority || (a.priority == b.priority && PushedAt(ops, a.id) < PushedAt(ops, b.id))
  }

  /** Jobs of equal priority stand in the order of their first push. */
  ghost predicate Fifo(ops: seq<Op>, q: seq<Job>) {
    forall i, j :: 0 <= i < j < |q| && q[i].priority == q[j].priority ==>
      PushedAt(ops, q[i].id) < PushedAt(ops, q[j].id)
  }

  ghost predicate SameShape(p: seq<Job>, q: seq<Job>) {
    |p| == |q| && forall i :: 0 <= i < |p| ==> p[i].id == q[i].id && p[i].priority == q[i].priority
  }

  lemma PreparedFifo(ops: seq<Op>, q: seq<Job>, release: i64)
    requires Fifo(ops, q)
    ensures Fifo(ops, Prepared(q, release))
    ensures Pairwise(ByPriority, Prepared(q, release))
  {
    var r := Release(q, release);
    assert SameShape(r, q);
    ByPriorityTotal();
    var earlier := (a: Job, b: Job) => PushedAt(ops, a.id) < PushedAt(ops, b.id);
    SortIsStable(ByPriority, earlier, r);
    var p := Prepared(q, release);
    forall i, j | 0 <= i < j < |p| && p[i].priority == p[j].priority
      ensures PushedAt(ops, p[i].id) < PushedAt(ops, p[j].id)
    {
      assert ByPriority(p[i], p[j]) && ByPriority(p[j], p[i]);
    }
  }

  lemma ClaimFifo(ops: seq<Op>, q: seq<Job>, op: Op)
    requires Fifo(ops, q) && Releases(op)
    ensures Fifo(ops, Step(q, op).0)
  {
    PreparedFifo(ops, q, op.release);
    if op.ClaimOp? {
      OneIsBatchOfOne(q, op.release, op.now, op.leaseMs);
    }
    assert SameShape(Step(q, op).0, Prepared(q, op.release));
  }

  lemma OtherShape(q: seq<Job>, op: Op)
    requires !Releases(op) && !op.PushOp?
    ensures SameShape(Step(q, op).0, q)
  {
  }

  lemma OtherFifo(ops: seq<Op>, q: seq<Job>, op: Op)
    requires Fifo(ops, q) && !Releases(op) && !op.PushOp?
    ensures Fifo(ops, Step(q, op).0)
  {
    OtherShape(q, op);
    ShapeFifo(ops, q, Step(q, op).0);
  }

  lemma ShapeFifo(ops: seq<Op>, p: seq<Job>, q: seq<Job>)
    requires Fifo(ops, p) && SameShape(q, p)
    ensures Fifo(ops, q)
  {
  }

  ghost predicate FifoAt(ops: seq<Op>, k: nat)
    requires k <= |ops|
  {
    Fifo(ops, At(ops, k))
  }

  lemma NextFifoAt(ops: seq<Op>, k: nat)
    requires k < |ops| && FifoAt(ops, k)
    ensures FifoAt(ops, k + 1)
  {
    if Releases(ops[k]) {
      ClaimFifo(ops, At(ops, k), ops[k]);
    } else if ops[k].PushOp? {
      PushFifo(ops, k);
    } else {
      OtherFifo(ops, At(ops, k), ops[k]);
    }
    assert At(ops, k + 1) == Step(At(ops, k), ops[k]).0;
  }

  lemma FifoFirst(ops: seq<Op>)
    ensures FifoAt(ops, 0)
  {
    assert At(ops, 0) == [];
  }

  lemma PushFifo(ops: seq<Op>, k: nat)
    requires k < |ops| && Fifo(ops, At(ops, k)) && ops[k].PushOp?
    ensures Fifo(ops, At(ops, k + 1))
  {
    var q, job := At(ops, k), ops[k].job;
    AlwaysHolds(ops, k, job.id);
    forall i | 0 <= i < |q| ensures PushedAt(ops, q[i].id) < k {
      AlwaysHolds(ops, k, q[i].id);
      FindAt(q, i);
    }
    PushedLast(ops, q, k);
    assert At(ops, k + 1) == Step(q, ops[k]).0;
  }

  lemma PushedLast(ops: seq<Op>, q: seq<Job>, k: nat)
    requires k < |ops| && ops[k].PushOp? && Fifo(ops, q) && Holds(ops, q, k, ops[k].job.id)
    requires forall i :: 0 <= i < |q| ==> PushedAt(ops, q[i].id) < k
    ensures Fifo(ops, Step(q, ops[k]).0)
  {
    if Find(q, ops[k].job.id).None? {
      assert PushedAt(ops, ops[k].job.id) == k;
    }
  }

  lemma AlwaysFifo(ops: seq<Op>, k: nat)
    requires k <= |ops|
    ensures FifoAt(ops, k)
  {
    var fifo := (m: nat) => m <= |ops| && FifoAt(ops, m);
    FifoFirst(ops);
    forall m | 0 <= m < |ops| ensures Kept(fifo, m) {
      if fifo(m) {
        NextFifoAt(ops, m);
      }
    }
    UpTo(fifo, |ops|, k);
  }

  lemma {:induction false} TakenInOrder(wrap: bool, ops: seq<Op>, p: seq<Job>, now: i64,
                                          expires: i64, limit: nat, n: nat)
    requires n <= |p| && Fifo(ops, p) && Pairwise(ByPriority, p)
    ensures var t := Taken(wrap, p, now, expires, limit, n);
      forall i, j :: 0 <= i < j < |t| ==> Precedes(ops, t[i], t[j])
  {
    if n > 0 {
      TakenInOrder(wrap, ops, p, now, expires, limit, n - 1);
      TakenFromChosen(wrap, p, now, expires, limit, n - 1);
      var t := Taken(wrap, p, now, expires, limit, n - 1);
      forall i | 0 <= i < |t| ensures Precedes(ops, t[i], p[n - 1]) {
        assert t[i] in t;
        var k :| 0 <= k < n - 1 && Chosen(p, now, limit, k) && t[i] == LeaseJob(wrap, p[k], now, expires);
        assert ByPriority(p[k], p[n - 1]);
      }
    }
  }

  /** Whoever is eligible but left out stands behind everyone taken, and only because the limit was reached. */
  lemma LeftOut(wrap: bool, ops: seq<Op>, p: seq<Job>, now: i64, expires: i64, limit: nat, i: nat)
    requires i < |p| && Fifo(ops, p) && Pairwise(ByPriority, p)
    requires Eligible(p[i], now) && !Chosen(p, now, limit, i)
    ensures var t := Taken(wrap, p, now, expires, limit, |p|);
      |t| == limit && forall c :: c in t ==> Precedes(ops, c, p[i])
  {
    var t := Taken(wrap, p, now, expires, limit, |p|);
    TakenFromChosen(wrap, p, now, expires, limit, |p|);
    EligibleBeforeMonotone(p, now, i, |p|);
    forall c | c in t ensures Precedes(ops, c, p[i]) {
      var k :| 0 <= k < |p| && Chosen(p, now, limit, k) && c == LeaseJob(wrap, p[k], now, expires);
      ChosenBefore(p, now, limit, k, i);
      assert ByPriority(p[k], p[i]);
    }
  }

  lemma ChosenBefore(p: seq<Job>, now: i64, limit: nat, k: nat, i: nat)
    requires k < |p| && i < |p| && Chosen(p, now, limit, k) && Eligible(p[i], now) && !Chosen(p, now, limit, i)
    ensures k < i
  {
    if i < k {
      EligibleBeforeMonotone(p, now, i, k);
    }
  }

  function Limit(op: Op): nat
    requires IsClaim(op)
  {
    if op.ClaimOp? then 1 else op.limit
  }

  lemma ClaimUpToOrder(wrap: bool, ops: seq<Op>, q: seq<Job>, release: i64, now: i64, leaseMs: u64, limit: nat)
    requires DistinctIds(q) && Fifo(ops, q)
    ensures var out := ClaimUpTo(wrap, q, release, now, leaseMs, limit).1;
      && |out| <= limit
      && (forall i, j :: 0 <= i < j < |out| ==> Precedes(ops, out[i], out[j]))
      && (forall y :: y in q && Eligible(ReleaseJob(y, release), now) && (forall c :: c in out ==> c.id != y.id) ==>
            |out| == limit && forall c :: c in out ==> Precedes(ops, c, y))
  {
    var p := Prepared(q, release);
    var e := SaturatingAdd(now, leaseMs);
    var out := Taken(wrap, p, now, e, limit, |p|);
    PreparedFifo(ops, q, release);
    TakenInOrder(wrap, ops, p, now, e, limit, |p|);
    TakenFromChosen(wrap, p, now, e, limit, |p|);
    forall y | y in q && Eligible(ReleaseJob(y, release), now) && (forall c :: c in out ==> c.id != y.id)
      ensures |out| == limit && forall c :: c in out ==> Precedes(ops, c, y)
    {
      var i := PreparedPlace(q, release, y);
      assert Chosen(p, now, limit, i) ==> LeaseJob(wrap, p[i], now, e) in out;
      LeftOut(wrap, ops, p, now, e, limit, i);
    }
  }

  /** Where a job of the queue stands once expired leases are released and the jobs sorted. */
  lemma PreparedPlace(q: seq<Job>, release: i64, y: Job) returns (i: nat)
    requires DistinctIds(q) && y in q
    ensures i < |Prepared(q, release)| && Prepared(q, release)[i] == ReleaseJob(y, release)
  {
    var n :| 0 <= n < |q| && q[n] == y;
    FindAt(q, n);
    FindPrepared(q, release, y.id);
    i := IndexOf(Prepared(q, release), y.id);
  }

  /** In every run, a claim returns eligible jobs only, in order of priority and then first push, and an
      eligible job it leaves behind comes after all of them and is left only because the limit was reached. */
  lemma ClaimsHighestPriorityThenOldest(ops: seq<Op>, k: nat)
    requires k < |ops| && IsClaim(ops[k]) && Step(At(ops, k), ops[k]).1.Jobs?
    ensures var q, op, out := At(ops, k), ops[k], Step(At(ops, k), ops[k]).1.jobs;
      && |out| <= Limit(op)
      && (forall c :: c in out ==> Find(q, c.id).Some? && Eligible(ReleaseJob(Find(q, c.id).value, op.release), op.now))
      && (forall i, j :: 0 <= i < j < |out| ==> Precedes(ops, out[i], out[j]))
      && (forall y :: y in q && Eligible(ReleaseJob(y, op.release), op.now) &&
                        (forall c :: c in out ==> c.id != y.id) ==>
            |out| == Limit(op) && forall c :: c in out ==> Precedes(ops, c, y))
  {
    var q, op, out := At(ops, k), ops[k], Step(At(ops, k), ops[k]).1.jobs;
    NoJobLostOrDuplicated(ops, k, "");
    AlwaysFifo(ops, k);
    forall c | c in out ensures Find(q, c.id).Some? && Eligible(ReleaseJob(Find(q, c.id).value, op.release), op.now) {
      JobStep(q, op, c.id);
      assert Returned(q, op, c.id);
      assert Happens(Claimed, q, op, c.id);
    }
    if op.ClaimOp? {
      OneIsBatchOfOne(q, op.release, op.now, op.leaseMs);
    }
    ClaimUpToOrder(op.ClaimOp?, ops, q, op.release, op.now, op.leaseMs, Limit(op));
  }
}
