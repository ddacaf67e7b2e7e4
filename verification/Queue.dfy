/** The lease, retry and dead-letter queue: one queue is the sequence of its jobs. */
module Queue {
  import opened Prelude
  import opened Ordering

  const MAX_QUEUE_BATCH_ITEMS := 1_000

  datatype Status = Ready | Leased | Completed | Dead

  datatype Job = Job(
    queue: string,
    id: string,
    body: string,
    attempts: u32,
    maxAttempts: u32,
    status: Status,
    availableAt: i64,
    leasedAt: Option<i64>,
    leaseExpiresAt: Option<i64>,
    completedAt: Option<i64>,
    deadAt: Option<i64>,
    createdAt: string,
    lastError: string,
    priority: int)

  /** Queues by name. */
  type Queues = map<string, seq<Job>>

  /** `now.saturating_add(u64_to_i64(ms))`. */
  function SaturatingAdd(now: i64, ms: u64): i64 {
    if now + (if ms > I64_MAX then I64_MAX else ms) > I64_MAX then I64_MAX
    else now + (if ms > I64_MAX then I64_MAX else ms)
  }

  // ------------------------------------------------------------- lookup

  /** The jobs of the named queue; a queue that does not exist has none. */
  function JobsIn(queues: Queues, name: string): seq<Job> {
    if name in queues then queues[name] else []
  }

  /** Index of the first job called `id`, or the length when there is none. */
  function IndexOf(q: seq<Job>, id: string): (i: nat)
    ensures i <= |q|
    ensures i < |q| ==> q[i].id == id
    ensures forall j :: 0 <= j < i ==> q[j].id != id
  {
    if q == [] || q[0].id == id then 0 else 1 + IndexOf(q[1..], id)
  }

  function Find(q: seq<Job>, id: string): Option<Job> {
    var i := IndexOf(q, id);
    if i < |q| then Some(q[i]) else None
  }

  predicate DiffId(a: Job, b: Job) {
    a.id != b.id
  }

  ghost predicate DistinctIds(q: seq<Job>) {
    Pairwise(DiffId, q)
  }

  lemma FindAt(q: seq<Job>, i: nat)
    requires DistinctIds(q) && i < |q|
    ensures Find(q, q[i].id) == Some(q[i])
  {
    var k := IndexOf(q, q[i].id);
    assert k <= i;
    assert k < i ==> DiffId(q[k], q[i]);
  }

  lemma FindPermuted(p: seq<Job>, q: seq<Job>, id: string)
    requires DistinctIds(p) && DistinctIds(q) && multiset(p) == multiset(q)
    ensures Find(p, id) == Find(q, id)
  {
    var i := IndexOf(q, id);
    if i < |q| {
      assert q[i] in multiset(q);
      var j :| 0 <= j < |p| && p[j] == q[i];
      FindAt(p, j);
    } else {
      forall job | job in p ensures job.id != id {
        assert job in multiset(p);
        assert job in multiset(q);
      }
    }
  }

  // --------------------------------------------------------------- claim

  predicate Expired(j: Job, now: i64) {
    j.status == Leased && j.leaseExpiresAt.Some? && j.leaseExpiresAt.value <= now
  }

  function ReleaseJob(j: Job, now: i64): Job {
    if Expired(j, now) then j.(status := Ready, leasedAt := None, leaseExpiresAt := None) else j
  }

  function Release(q: seq<Job>, now: i64): seq<Job> {
    Map(j => ReleaseJob(j, now), q)
  }

  /** `sort_by_key(|job| Reverse(job.priority))`. */
  predicate ByPriority(a: Job, b: Job) {
    a.priority >= b.priority
  }

  function Prepared(q: seq<Job>, release: i64): seq<Job> {
    Sort(ByPriority, Release(q, release))
  }

  predicate Eligible(j: Job, now: i64) {
    j.status == Ready && j.availableAt <= now
  }

  function FirstEligible(q: seq<Job>, now: i64): (i: nat)
    ensures i <= |q|
    ensures i < |q| ==> Eligible(q[i], now)
    ensures forall j :: 0 <= j < i ==> !Eligible(q[j], now)
  {
    if q == [] || Eligible(q[0], now) then 0 else 1 + FirstEligible(q[1..], now)
  }

  /** `attempts += 1` wraps in the single claim; `saturating_add(1)` does not in the batch claim. */
  function Bump(wrap: bool, attempts: u32): u32 {
    if attempts < U32_MAX then attempts + 1 else if wrap then 0 else attempts
  }

  function LeaseJob(wrap: bool, j: Job, now: i64, expires: i64): Job {
    j.(status := Leased, attempts := Bump(wrap, j.attempts),
       leasedAt := Some(now), leaseExpiresAt := Some(expires))
  }

  /** The queue with its first eligible job leased, and that job. */
  function LeaseFirst(p: seq<Job>, now: i64, expires: i64): (seq<Job>, seq<Job>) {
    var i := FirstEligible(p, now);
    if i == |p| then (p, []) else
      var job := LeaseJob(true, p[i], now, expires);
      (p[i := job], [job])
  }

  /** A claim once expired leases are released. */
  function ClaimReleased(r: seq<Job>, now: i64, leaseMs: u64): (seq<Job>, seq<Job>) {
    LeaseFirst(Sort(ByPriority, r), now, SaturatingAdd(now, leaseMs))
  }

  /** One claim: the queue left behind and the job handed out. */
  function ClaimOne(q: seq<Job>, release: i64, now: i64, leaseMs: u64): (seq<Job>, seq<Job>) {
    ClaimReleased(Release(q, release), now, leaseMs)
  }

  /** How many of the first `n` jobs are eligible. */
  function EligibleBefore(p: seq<Job>, now: i64, n: nat): (c: nat)
    requires n <= |p|
    ensures c <= n
  {
    if n == 0 then 0 else EligibleBefore(p, now, n - 1) + if Eligible(p[n - 1], now) then 1 else 0
  }

  /** `filter(eligible).take(limit)` reaches the job at `i`. */
  predicate Chosen(p: seq<Job>, now: i64, limit: nat, i: nat)
    requires i < |p|
  {
    Eligible(p[i], now) && EligibleBefore(p, now, i) < limit
  }

  function LeaseChosen(wrap: bool, p: seq<Job>, now: i64, expires: i64, limit: nat): (r: seq<Job>)
    ensures |r| == |p|
  {
    seq(|p|, i requires 0 <= i < |p| =>
      if Chosen(p, now, limit, i) then LeaseJob(wrap, p[i], now, expires) else p[i])
  }

  /** The leased jobs among the first `n`, in queue order. */
  function Taken(wrap: bool, p: seq<Job>, now: i64, expires: i64, limit: nat, n: nat): seq<Job>
    requires n <= |p|
  {
    if n == 0 then [] else
      Taken(wrap, p, now, expires, limit, n - 1) +
      if Chosen(p, now, limit, n - 1) then [LeaseJob(wrap, p[n - 1], now, expires)] else []
  }

  /** A batch claim once expired leases are released. */
  function ClaimReleasedUpTo(wrap: bool, r: seq<Job>, now: i64, leaseMs: u64, limit: nat): (seq<Job>, seq<Job>) {
    var p := Sort(ByPriority, r);
    var expires := SaturatingAdd(now, leaseMs);
    (LeaseChosen(wrap, p, now, expires, limit), Taken(wrap, p, now, expires, limit, |p|))
  }

  /** A batch claim of up to `limit` jobs. */
  function ClaimUpTo(wrap: bool, q: seq<Job>, release: i64, now: i64, leaseMs: u64, limit: nat): (seq<Job>, seq<Job>) {
    ClaimReleasedUpTo(wrap, Release(q, release), now, leaseMs, limit)
  }

  function ClaimMany(q: seq<Job>, release: i64, now: i64, leaseMs: u64, limit: nat)
    : (seq<Job>, Result<seq<Job>, Error>)
  {
    if limit > MAX_QUEUE_BATCH_ITEMS then (q, Err(InvalidInput))
    else if limit == 0 then (q, Ok([]))
    else
      var (q', jobs) := ClaimUpTo(false, q, release, now, leaseMs, limit);
      (q', Ok(jobs))
  }

  // ------------------------------------------------------ push, ack, nack

  function Push(q: seq<Job>, job: Job): (seq<Job>, Job) {
    var i := IndexOf(q, job.id);
    if i < |q| then (q, q[i]) else (q + [job], job)
  }

  function CompleteJob(j: Job, now: i64): Job {
    j.(status := Completed, completedAt := Some(now))
  }

  function AckOne(q: seq<Job>, id: string, now: i64): (seq<Job>, Result<Option<Job>, Error>) {
    var i := IndexOf(q, id);
    if i == |q| then (q, Ok(None))
    else if q[i].status != Leased then (q, Err(Conflict))
    else (q[i := CompleteJob(q[i], now)], Ok(Some(CompleteJob(q[i], now))))
  }

  predicate LeasedIn(q: seq<Job>, id: string) {
    var i := IndexOf(q, id);
    i < |q| && q[i].status == Leased
  }

  ghost predicate NoDuplicates(ids: seq<string>) {
    forall i, j :: 0 <= i < j < |ids| ==> ids[i] != ids[j]
  }

  function CompleteAll(q: seq<Job>, ids: seq<string>, now: i64): (r: seq<Job>)
    ensures |r| == |q|
  {
    seq(|q|, i requires 0 <= i < |q| => if q[i].id in ids then CompleteJob(q[i], now) else q[i])
  }

  function Completions(q: seq<Job>, ids: seq<string>, now: i64): (r: seq<Job>)
    requires forall id :: id in ids ==> LeasedIn(q, id)
    ensures |r| == |ids|
  {
    seq(|ids|, i requires 0 <= i < |ids| => assert LeasedIn(q, ids[i]); CompleteJob(q[IndexOf(q, ids[i])], now))
  }

  /** The all-or-nothing acknowledgement. */
  ghost function AckMany(q: seq<Job>, ids: seq<string>, now: i64): (seq<Job>, Result<seq<Job>, Error>) {
    if |ids| > MAX_QUEUE_BATCH_ITEMS || !NoDuplicates(ids) then (q, Err(InvalidInput))
    else if !forall id :: id in ids ==> LeasedIn(q, id) then (q, Err(Conflict))
    else (CompleteAll(q, ids, now), Ok(Completions(q, ids, now)))
  }

  function NackJob(j: Job, now: i64, delayMs: u64, error: string): Job {
    var k := j.(leasedAt := None, leaseExpiresAt := None,
                lastError := if error != "" then error else j.lastError);
    if j.attempts >= j.maxAttempts then k.(status := Dead, deadAt := Some(now))
    else k.(status := Ready, availableAt := SaturatingAdd(now, delayMs))
  }

  function NackOne(q: seq<Job>, id: string, now: i64, delayMs: u64, error: string)
    : (seq<Job>, Result<Option<Job>, Error>)
  {
    var i := IndexOf(q, id);
    if i == |q| then (q, Ok(None))
    else if q[i].status != Leased then (q, Err(Conflict))
    else (q[i := NackJob(q[i], now, delayMs, error)], Ok(Some(NackJob(q[i], now, delayMs, error))))
  }

  // ---------------------------------------------------- facts about claims

  lemma ByPriorityTotal()
    ensures TotalPreorder(ByPriority)
  {
  }

  /** Expiry release and the in-place sort move jobs but keep each one, changed only by its own expiry. */
  lemma PreparedFacts(q: seq<Job>, release: i64)
    requires DistinctIds(q)
    ensures DistinctIds(Release(q, release)) && DistinctIds(Prepared(q, release))
    ensures Pairwise(ByPriority, Prepared(q, release))
    ensures |Prepared(q, release)| == |q|
    ensures multiset(Prepared(q, release)) == multiset(Release(q, release))
  {
    var r := Release(q, release);
    forall i, j | 0 <= i < j < |r| ensures DiffId(r[i], r[j]) {
      assert DiffId(q[i], q[j]);
    }
    ByPriorityTotal();
    SortPairwiseBoth(ByPriority, DiffId, r);
    SortPermutes(ByPriority, r);
  }

  lemma FindPrepared(q: seq<Job>, release: i64, id: string)
    requires DistinctIds(q)
    ensures Find(q, id).None? ==> Find(Prepared(q, release), id).None?
    ensures Find(q, id).Some? ==>
              Find(Prepared(q, release), id) == Some(ReleaseJob(Find(q, id).value, release))
  {
    PreparedFacts(q, release);
    var r := Release(q, release);
    FindPermuted(Prepared(q, release), r, id);
    var i, k := IndexOf(q, id), IndexOf(r, id);
    assert i == k by {
      assert i < |q| ==> r[i].id == q[i].id;
      assert k < |q| ==> r[k].id == q[k].id;
    }
  }

  lemma {:induction false} EligibleBeforeMonotone(p: seq<Job>, now: i64, m: nat, n: nat)
    requires m <= n <= |p|
    ensures EligibleBefore(p, now, m) <= EligibleBefore(p, now, n)
    ensures (forall i :: m <= i < n ==> !Eligible(p[i], now)) ==>
              EligibleBefore(p, now, m) == EligibleBefore(p, now, n)
    decreases n
  {
    if m < n {
      EligibleBeforeMonotone(p, now, m, n - 1);
    }
  }

  /** The job `c` is one of the first `n`, chosen and leased. */
  ghost predicate LeasedAmong(wrap: bool, p: seq<Job>, now: i64, expires: i64, limit: nat, n: nat, c: Job)
    requires n <= |p|
  {
    exists i :: 0 <= i < n && Chosen(p, now, limit, i) && c == LeaseJob(wrap, p[i], now, expires)
  }

  lemma {:induction false} TakenFromChosen(wrap: bool, p: seq<Job>, now: i64, expires: i64, limit: nat, n: nat)
    requires n <= |p|
    ensures var t := Taken(wrap, p, now, expires, limit, n);
      && |t| == (if EligibleBefore(p, now, n) < limit then EligibleBefore(p, now, n) else limit)
      && (forall c :: c in t <==> LeasedAmong(wrap, p, now, expires, limit, n, c))
  {
    if n > 0 {
      TakenFromChosen(wrap, p, now, expires, limit, n - 1);
      var t, u := Taken(wrap, p, now, expires, limit, n), Taken(wrap, p, now, expires, limit, n - 1);
      forall c ensures c in t <==> LeasedAmong(wrap, p, now, expires, limit, n, c) {
        if Chosen(p, now, limit, n - 1) {
          assert t == u + [LeaseJob(wrap, p[n - 1], now, expires)];
        } else {
          assert t == u;
        }
      }
    }
  }

  /** A single claim is a batch claim of one, save that its attempt counter wraps. */
  lemma OneIsBatchOfOne(q: seq<Job>, release: i64, now: i64, leaseMs: u64)
    ensures ClaimOne(q, release, now, leaseMs) == ClaimUpTo(true, q, release, now, leaseMs, 1)
  {
    var p := Prepared(q, release);
    var e := SaturatingAdd(now, leaseMs);
    OneChosen(p, now);
    TakenOne(true, p, now, e, |p|);
    var i := FirstEligible(p, now);
    if i < |p| {
      assert LeaseChosen(true, p, now, e, 1) == p[i := LeaseJob(true, p[i], now, e)];
    } else {
      assert LeaseChosen(true, p, now, e, 1) == p;
    }
  }

  lemma OneChosen(p: seq<Job>, now: i64)
    ensures forall i :: 0 <= i < |p| ==> (Chosen(p, now, 1, i) <==> i == FirstEligible(p, now))
  {
    var f := FirstEligible(p, now);
    EligibleBeforeMonotone(p, now, 0, f);
    forall i | 0 <= i < |p| ensures Chosen(p, now, 1, i) <==> i == f {
      if f < i {
        EligibleBeforeMonotone(p, now, f + 1, i);
      }
    }
  }

  lemma {:induction false} TakenOne(wrap: bool, p: seq<Job>, now: i64, expires: i64, n: nat)
    requires n <= |p|
    ensures var f := FirstEligible(p, now);
      Taken(wrap, p, now, expires, 1, n) == if f < n then [LeaseJob(wrap, p[f], now, expires)] else []
  {
    OneChosen(p, now);
    if n > 0 {
      TakenOne(wrap, p, now, expires, n - 1);
    }
  }
}
