/** The in-memory storage engine: one object whose collections its methods update in place. Clock readings,
    taken by the program inside each call, are arguments here. */
module Engine {
  import opened Prelude
  import opened Ordering
  import opened Stores
  import O = Objects
  import E = EventLog
  import L = Links
  import Q = Queue
  import J = Json
  import R = QueueRuns
  import B = QueueBatch

  class MemoryEngine {
    const parse: O.Parser
    var objects: map<O.Key, O.Object>
    var vectors: map<O.Key, O.Vector>
    var indexes: map<(string, string), O.Index>
    var events: seq<E.Event>
    var nextEventSequence: u64
    var eventKeys: map<(string, string), u64>
    var queues: Q.Queues
    var links: seq<L.Link>
    var nextLinkId: u64

    ghost function Shelf(): O.Shelf
      reads this
    {
      O.Shelf(objects, vectors, indexes)
    }

    ghost function Log(): E.Log
      reads this
    {
      E.Log(events, nextEventSequence, eventKeys)
    }

    ghost function Table(): L.Table
      reads this
    {
      L.Table(links, nextLinkId)
    }

    /** Everything the engine stores. */
    ghost function View(): Store
      reads this
    {
      Store(Shelf(), Log(), Table(), queues)
    }

    ghost predicate Valid()
      reads this
    {
      StoreOk(parse, View())
    }

    constructor (parse: O.Parser)
      ensures this.parse == parse && View() == EMPTY_STORE && Valid()
    {
      this.parse := parse;
      objects, vectors, indexes := map[], map[], map[];
      events, nextEventSequence, eventKeys := [], 0, map[];
      queues := map[];
      links, nextLinkId := [], 0;
    }

    // ---------------------------------------------------------------- queues

    method PushJob(job: Q.Job) returns (stored: Q.Job)
      modifies this`queues
      ensures var (jobs, kept) := Q.Push(Q.JobsIn(old(queues), job.queue), job);
        queues == old(queues)[job.queue := jobs] && stored == kept
      ensures old(Valid()) ==> Valid()
    {
      var jobs := Q.JobsIn(queues, job.queue);
      var i := Locate(jobs, job.id);
      if i < |jobs| {
        queues := queues[job.queue := jobs];
        return jobs[i];
      }
      queues := queues[job.queue := jobs + [job]];
      PushKeeps(old(queues), job);
      return job;
    }

    method ReleaseExpiredLeases(queue: string, now: i64)
      modifies this`queues
      ensures queues == if queue in old(queues) then old(queues)[queue := Q.Release(old(queues)[queue], now)]
          else old(queues)
    {
      if queue in queues {
        var jobs := queues[queue];
        for i := 0 to |jobs|
          invariant |jobs| == |old(queues)[queue]|
          invariant forall j :: 0 <= j < i ==> jobs[j] == Q.ReleaseJob(old(queues)[queue][j], now)
          invariant forall j :: i <= j < |jobs| ==> jobs[j] == old(queues)[queue][j]
        {
          var job := jobs[i];
          if job.status == Q.Leased && job.leaseExpiresAt.Some? && job.leaseExpiresAt.value <= now {
            jobs := jobs[i := job.(status := Q.Ready, leasedAt := None, leaseExpiresAt := None)];
          }
        }
        assert jobs == Q.Release(old(queues)[queue], now);
        queues := queues[queue := jobs];
      }
    }

    /** Claims the first eligible job by priority and age; `release` and `now` are the two clock readings. */
    method ClaimJob(queue: string, release: i64, now: i64, leaseMs: u64) returns (claimed: Option<Q.Job>)
      modifies this`queues
      ensures var (jobs, out) := Q.ClaimOne(Q.JobsIn(old(queues), queue), release, now, leaseMs);
        && queues == (if queue in old(queues) then old(queues)[queue := jobs] else old(queues))
        && claimed == if queue in old(queues) && out != [] then Some(out[0]) else None
      ensures old(Valid()) ==> Valid()
    {
      ReleaseExpiredLeases(queue, release);
      if queue !in queues {
        return None;
      }
      var jobs;
      jobs, claimed := LeaseFirst(queues[queue], now, leaseMs);
      assert jobs == Q.ClaimOne(old(queues)[queue], release, now, leaseMs).0;
      queues := queues[queue := jobs];
      ClaimKept(parse, old(View()), queue, release, now, leaseMs, jobs);
    }

    method ClaimJobs(queue: string, release: i64, now: i64, leaseMs: u64, limit: nat)
      returns (r: Result<seq<Q.Job>, Error>)
      modifies this`queues
      ensures var (jobs, out) := Q.ClaimMany(Q.JobsIn(old(queues), queue), release, now, leaseMs, limit);
        && queues == (if queue in old(queues) then old(queues)[queue := jobs] else old(queues))
        && r == out
      ensures old(Valid()) ==> Valid()
    {
      if limit > Q.MAX_QUEUE_BATCH_ITEMS {
        return Err(InvalidInput);
      }
      if limit == 0 {
        return Ok([]);
      }
      ReleaseExpiredLeases(queue, release);
      if queue !in queues {
        NothingToClaim(release, now, leaseMs, limit);
        return Ok([]);
      }
      var jobs, taken := LeaseSeveral(queues[queue], now, leaseMs, limit);
      assert (jobs, taken) == Q.ClaimUpTo(false, old(queues)[queue], release, now, leaseMs, limit);
      queues := queues[queue := jobs];
      BatchKept(parse, old(View()), queue, release, now, leaseMs, limit, jobs);
      return Ok(taken);
    }

    method AckJob(queue: string, id: string, now: i64) returns (r: Result<Option<Q.Job>, Error>)
      modifies this`queues
      ensures var (jobs, out) := Q.AckOne(Q.JobsIn(old(queues), queue), id, now);
        && queues == (if queue in old(queues) then old(queues)[queue := jobs] else old(queues))
        && r == out
      ensures old(Valid()) ==> Valid()
    {
      if queue !in queues {
        return Ok(None);
      }
      var jobs;
      jobs, r := Acknowledge(queues[queue], id, now);
      QueueKept(parse, View(), queue, R.AckOp(id, now), jobs);
      queues := queues[queue := jobs];
    }

    method AckJobs(queue: string, ids: seq<string>, now: i64) returns (r: Result<seq<Q.Job>, Error>)
      requires QueuesOk(queues)
      modifies this`queues
      ensures var (jobs, out) := Q.AckMany(Q.JobsIn(old(queues), queue), ids, now);
        && queues == (if queue in old(queues) then old(queues)[queue := jobs] else old(queues))
        && r == out
      ensures QueuesOk(queues) && (old(Valid()) ==> Valid())
    {
      var jobs;
      jobs, r := AcknowledgeAll(Q.JobsIn(queues, queue), ids, now);
      if queue in queues {
        QueueKept(parse, View(), queue, R.AckManyOp(ids, now), jobs);
        queues := queues[queue := jobs];
      }
    }

    method NackJob(queue: string, id: string, now: i64, delayMs: u64, error: string)
      returns (r: Result<Option<Q.Job>, Error>)
      modifies this`queues
      ensures var (jobs, out) := Q.NackOne(Q.JobsIn(old(queues), queue), id, now, delayMs, error);
        && queues == (if queue in old(queues) then old(queues)[queue := jobs] else old(queues))
        && r == out
      ensures old(Valid()) ==> Valid()
    {
      if queue !in queues {
        return Ok(None);
      }
      var jobs;
      jobs, r := Reject(queues[queue], id, now, delayMs, error);
      QueueKept(parse, View(), queue, R.NackOp(id, now, delayMs, error), jobs);
      queues := queues[queue := jobs];
    }

    // ---------------------------------------------------------------- events

    method AppendEvent(event: E.Event, now: string) returns (stored: E.Event)
      modifies this`events, this`nextEventSequence, this`eventKeys
      ensures (Log(), stored) == E.Append(old(Log()), event, now)
      ensures old(Valid()) && now != "" && old(nextEventSequence) < U64_MAX ==> Valid()
    {
      if event.key != "" && (event.stream, event.key) in eventKeys {
        var i := LocateSequence(events, eventKeys[(event.stream, event.key)]);
        if i < |events| {
          return events[i];
        }
      }
      assert E.Known(Log(), event).None?;
      nextEventSequence := if nextEventSequence == U64_MAX then 0 else nextEventSequence + 1;
      stored := event.(sequence := nextEventSequence);
      if stored.createdAt == "" {
        stored := stored.(createdAt := now);
      }
      if stored.key != "" {
        eventKeys := eventKeys[(stored.stream, stored.key) := stored.sequence];
      }
      events := events + [stored];
      assert Log() == E.Append(old(Log()), event, now).0;
      assert old(Valid()) && now != "" && old(nextEventSequence) < U64_MAX ==> Valid() by {
        LogKept(parse, old(View()), event, now);
        assert View() == old(View()).(log := Log());
      }
    }

    method DeleteLastEvent(stream: string) returns (r: Result<Option<E.Event>, Error>)
      modifies this`events
      ensures (Log(), r) == E.DeleteLast(old(Log()), stream)
      ensures old(Valid()) ==> Valid()
    {
      if stream == E.PROTECTED_STREAM {
        return Err(Protected);
      }
      var i := |events|;
      while i > 0 && events[i - 1].stream != stream
        invariant 0 <= i <= |events|
        invariant forall j :: i <= j < |events| ==> events[j].stream != stream
      {
        i := i - 1;
      }
      if i == 0 {
        return Ok(None);
      }
      if Valid() {
        E.DeleteLastKeeps(Log(), stream);
      }
      r := Ok(Some(events[i - 1]));
      events := events[..i - 1] + events[i..];
    }

    method DeleteStream(stream: string) returns (r: Result<nat, Error>)
      modifies this`events
      ensures (Log(), r) == E.DeleteStream(old(Log()), stream)
      ensures old(Valid()) ==> Valid()
    {
      if stream == E.PROTECTED_STREAM {
        return Err(Protected);
      }
      if Valid() {
        E.DeleteStreamKeeps(Log(), stream);
      }
      var before := |events|;
      events := E.Without(events, stream);
      return Ok(before - |events|);
    }

    // ----------------------------------------------------------------- links

    method CreateLink(link: L.Link, now: string) returns (made: L.Link)
      modifies this`links, this`nextLinkId
      ensures (Table(), made) == L.Create(old(Table()), link, now)
      ensures old(Valid()) ==> (Valid() <==> L.HasRoom(old(Table())))
    {
      if Valid() {
        L.CreateKeeps(Table(), link, now);
      }
      nextLinkId := if nextLinkId == U64_MAX then 0 else nextLinkId + 1;
      made := link.(id := "link-" + L.Decimal(nextLinkId));
      if made.createdAt == "" {
        made := made.(createdAt := now);
      }
      links := links + [made];
    }

    method ImportLink(link: L.Link) returns (r: Result<L.Link, Error>)
      modifies this`links, this`nextLinkId
      ensures (Table(), r) == L.Import(old(Table()), link)
      ensures old(Valid()) ==> Valid()
    {
      if Valid() {
        L.ImportKeeps(Table(), link);
      }
      if link.id == "" {
        return Err(InvalidInput);
      }
      for i := 0 to |links|
        invariant forall j :: 0 <= j < i ==> links[j].id != link.id
      {
        if links[i].id == link.id {
          return if links[i] == link then Ok(link) else Err(Conflict);
        }
      }
      if "link-" <= link.id {
        var number := L.ParseU64(link.id[|"link-"|..]);
        if number.Some? && number.value > nextLinkId {
          nextLinkId := number.value;
        }
      }
      links := links + [link];
      return Ok(link);
    }

    method DeleteLink(id: string) returns (removed: bool)
      modifies this`links
      ensures (Table(), removed) == L.Delete(old(Table()), id)
      ensures old(Valid()) ==> Valid()
    {
      if Valid() {
        L.DeleteKeeps(Table(), id);
      }
      var before := |links|;
      links := Filter((l: L.Link) => l.id != id, links);
      return |links| < before;
    }

    // --------------------------------------------------------------- objects

    /** True when no unique index of the collection rejects the object. */
    method ValidateUniqueIndexes(entry: O.Object) returns (admitted: bool)
      ensures admitted <==> O.Admits(parse, Shelf(), entry)
    {
      var todo := indexes.Keys;
      while todo != {}
        invariant todo <= indexes.Keys
        invariant forall ix, k :: ix in indexes && ix !in todo && k in objects ==>
          !O.Blocks(parse, entry, indexes[ix], k, objects[k])
        decreases todo
      {
        var ix :| ix in todo;
        todo := todo - {ix};
        var index := indexes[ix];
        if !index.unique || index.collection != entry.key.collection {
          continue;
        }
        var value := O.Indexed(parse, entry, index.field);
        if value.None? {
          continue;
        }
        var others := objects.Keys;
        while others != {}
          invariant others <= objects.Keys
          invariant forall k :: k in objects && k !in others ==> !O.Blocks(parse, entry, index, k, objects[k])
          decreases others
        {
          var k :| k in others;
          others := others - {k};
          if k != entry.key && k.collection == entry.key.collection {
            var existing := O.Indexed(parse, objects[k], index.field);
            if existing.Some? && J.JsonEq(value.value, existing.value) {
              assert O.Blocks(parse, entry, index, k, objects[k]);
              return false;
            }
          }
        }
      }
      return true;
    }

    /** True when the objects already stored do not repeat a value of the field. */
    method ValidateExistingUniqueIndex(collection: string, field: string) returns (unique: bool)
      ensures unique <==> O.FieldIsUnique(parse, objects, collection, field)
    {
      unique := NoRepeats(parse, objects, collection, field);
    }

    method PutObject(entry: O.Object, now: string) returns (r: Result<O.Object, Error>)
      modifies this`objects, this`vectors
      ensures (Shelf(), r) == O.Put(parse, old(Shelf()), entry, now)
      ensures old(Valid()) && now != "" ==> Valid()
    {
      if Valid() && now != "" {
        O.PutKeeps(parse, Shelf(), entry, now);
      }
      var admitted := ValidateUniqueIndexes(entry);
      if !admitted {
        return Err(Conflict);
      }
      var version: u64 := 1;
      if entry.key in objects {
        version := Increment(objects[entry.key].version);
      }
      var stored := entry.(version := version, updatedAt := now);
      if stored.createdAt == "" {
        stored := stored.(createdAt := now);
      }
      objects := objects[stored.key := stored];
      if stored.vector.Some? {
        vectors := vectors[stored.key := stored.vector.value];
      } else {
        vectors := vectors - {stored.key};
      }
      return Ok(stored);
    }

    method PutObjectWithOptions(entry: O.Object, expected: Option<u64>, now: string)
      returns (r: Result<O.Object, Error>)
      modifies this`objects, this`vectors
      ensures (Shelf(), r) == O.PutWithOptions(parse, old(Shelf()), entry, expected, now)
      ensures old(Valid()) && now != "" ==> Valid()
    {
      if expected.Some? {
        var matches := if expected.value == 0 then entry.key !in objects
                       else entry.key in objects && objects[entry.key].version == expected.value;
        if !matches {
          return Err(Conflict);
        }
      }
      r := PutObject(entry, now);
    }

    method PutObjectWithSourceMetadata(entry: O.Object, expected: Option<u64>, now: string)
      returns (r: Result<O.Object, Error>)
      modifies this`objects, this`vectors
      ensures (Shelf(), r) == O.PutWithSourceMetadata(parse, old(Shelf()), entry, expected, now)
      ensures old(Valid()) && now != "" ==> Valid()
    {
      if Valid() && now != "" {
        O.SourceMetadataKeeps(parse, Shelf(), entry, expected, now);
      }
      if expected.Some? && !(entry.key in objects && objects[entry.key].version == expected.value) {
        return Err(Conflict);
      }
      r := PutObject(entry, now);
      if r.Err? {
        return;
      }
      var replicated := r.value;
      if entry.version > 0 {
        replicated := replicated.(version := entry.version);
      }
      if entry.createdAt != "" {
        replicated := replicated.(createdAt := entry.createdAt);
      }
      if entry.updatedAt != "" {
        replicated := replicated.(updatedAt := entry.updatedAt);
      }
      objects := objects[entry.key := replicated];
      return Ok(replicated);
    }

    method DeleteObject(key: O.Key) returns (removed: bool)
      modifies this`objects, this`vectors
      ensures (Shelf(), removed) == O.Remove(old(Shelf()), key)
      ensures old(Valid()) ==> Valid()
    {
      vectors := vectors - {key};
      removed := key in objects;
      objects := objects - {key};
    }

    method CreateIndexDefinition(index: O.Index) returns (r: Result<(), Error>)
      modifies this`indexes
      ensures (Shelf(), r) == O.CreateIndex(parse, old(Shelf()), index)
      ensures old(Valid()) ==> Valid()
    {
      if index.collection == "" || index.field == "" {
        return Err(InvalidInput);
      }
      if index.unique {
        var unique := ValidateExistingUniqueIndex(index.collection, index.field);
        if !unique {
          return Err(Conflict);
        }
      }
      indexes := indexes[(index.collection, index.field) := index];
      return Ok(());
    }

    method DeleteIndex(collection: string, field: string) returns (removed: bool)
      modifies this`indexes
      ensures (Shelf(), removed) == O.DeleteIndex(old(Shelf()), collection, field)
      ensures old(Valid()) ==> Valid()
    {
      removed := (collection, field) in indexes;
      indexes := indexes - {(collection, field)};
    }

    method AddVector(key: O.Key, vector: O.Vector)
      modifies this`vectors
      ensures Shelf() == O.AddVector(old(Shelf()), key, vector)
      ensures old(Valid()) ==> Valid()
    {
      vectors := vectors[key := vector];
    }

    method RemoveVector(key: O.Key)
      modifies this`vectors
      ensures Shelf() == O.RemoveVector(old(Shelf()), key)
      ensures old(Valid()) ==> Valid()
    {
      vectors := vectors - {key};
    }
  }

  // ------------------------------------------------- loops over one collection

  /** `iter().find(|job| job.id == id)`, as an index; the length when there is none. */
  method Locate(jobs: seq<Q.Job>, id: string) returns (i: nat)
    ensures i == Q.IndexOf(jobs, id)
  {
    i := 0;
    while i < |jobs| && jobs[i].id != id
      invariant 0 <= i <= |jobs|
      invariant forall j :: 0 <= j < i ==> jobs[j].id != id
    {
      i := i + 1;
    }
  }

  /** `iter().find(|e| e.sequence == sequence)`, as an index; the length when there is none. */
  method LocateSequence(events: seq<E.Event>, sequence: u64) returns (i: nat)
    ensures i == E.IndexOfSequence(events, sequence)
  {
    for n := 0 to |events|
      invariant forall j :: 0 <= j < n ==> events[j].sequence != sequence
    {
      if events[n].sequence == sequence {
        return n;
      }
    }
    return |events|;
  }

  /** Bring the released jobs into claim order and lease the first eligible one. */
  method LeaseFirst(released: seq<Q.Job>, now: i64, leaseMs: u64) returns (jobs: seq<Q.Job>, claimed: Option<Q.Job>)
    ensures var (after, out) := Q.ClaimReleased(released, now, leaseMs);
      jobs == after && claimed == if out == [] then None else Some(out[0])
  {
    jobs := Sort(Q.ByPriority, released);
    for i := 0 to |jobs|
      invariant forall j :: 0 <= j < i ==> !Q.Eligible(jobs[j], now)
    {
      var job := jobs[i];
      if job.status == Q.Ready && job.availableAt <= now {
        assert i == Q.FirstEligible(jobs, now);
        job := job.(status := Q.Leased, attempts := if job.attempts == U32_MAX then 0 else job.attempts + 1,
                    leasedAt := Some(now), leaseExpiresAt := Some(Q.SaturatingAdd(now, leaseMs)));
        return jobs[i := job], Some(job);
      }
    }
    return jobs, None;
  }

  /** Complete a leased job; any other status is a conflict. */
  method Acknowledge(q: seq<Q.Job>, id: string, now: i64) returns (jobs: seq<Q.Job>, r: Result<Option<Q.Job>, Error>)
    ensures (jobs, r) == Q.AckOne(q, id, now)
  {
    jobs := q;
    var i := Locate(jobs, id);
    if i == |jobs| {
      return jobs, Ok(None);
    }
    if jobs[i].status != Q.Leased {
      return jobs, Err(Conflict);
    }
    var job := jobs[i].(status := Q.Completed, completedAt := Some(now));
    return jobs[i := job], Ok(Some(job));
  }

  /** Take the lease away: dead once the attempts are used up, otherwise ready again after the delay. */
  method Reject(q: seq<Q.Job>, id: string, now: i64, delayMs: u64, error: string)
    returns (jobs: seq<Q.Job>, r: Result<Option<Q.Job>, Error>)
    ensures (jobs, r) == Q.NackOne(q, id, now, delayMs, error)
  {
    jobs := q;
    var i := Locate(jobs, id);
    if i == |jobs| {
      return jobs, Ok(None);
    }
    if jobs[i].status != Q.Leased {
      return jobs, Err(Conflict);
    }
    var job := jobs[i].(leasedAt := None, leaseExpiresAt := None);
    if error != "" {
      job := job.(lastError := error);
    }
    if job.attempts >= job.maxAttempts {
      job := job.(status := Q.Dead, deadAt := Some(now));
    } else {
      job := job.(status := Q.Ready, availableAt := Q.SaturatingAdd(now, delayMs));
    }
    return jobs[i := job], Ok(Some(job));
  }

  /** Bring the released jobs into claim order and lease the first `limit` eligible ones. */
  method LeaseSeveral(released: seq<Q.Job>, now: i64, leaseMs: u64, limit: nat)
    returns (jobs: seq<Q.Job>, taken: seq<Q.Job>)
    ensures (jobs, taken) == Q.ClaimReleasedUpTo(false, released, now, leaseMs, limit)
  {
    jobs, taken := LeaseChosen(Sort(Q.ByPriority, released), now, Q.SaturatingAdd(now, leaseMs), limit);
  }

  method LeaseChosen(p: seq<Q.Job>, now: i64, expires: i64, limit: nat) returns (jobs: seq<Q.Job>, taken: seq<Q.Job>)
    ensures jobs == Q.LeaseChosen(false, p, now, expires, limit) && taken == Q.Taken(false, p, now, expires, limit, |p|)
  {
    jobs, taken := p, [];
    for i := 0 to |p|
      invariant |jobs| == |p|
      invariant taken == Q.Taken(false, p, now, expires, limit, i)
      invariant |taken| == if Q.EligibleBefore(p, now, i) < limit then Q.EligibleBefore(p, now, i) else limit
      invariant forall j :: 0 <= j < i ==> jobs[j] == Q.LeaseChosen(false, p, now, expires, limit)[j]
      invariant forall j :: i <= j < |p| ==> jobs[j] == p[j]
    {
      var job := jobs[i];
      if job.status == Q.Ready && job.availableAt <= now && |taken| < limit {
        job := job.(status := Q.Leased, attempts := if job.attempts == U32_MAX then U32_MAX else job.attempts + 1,
                    leasedAt := Some(now), leaseExpiresAt := Some(expires));
        jobs := jobs[i := job];
        taken := taken + [job];
      }
    }
    assert jobs == Q.LeaseChosen(false, p, now, expires, limit);
  }

  method AllDistinct(ids: seq<string>) returns (distinct: bool)
    ensures distinct <==> Q.NoDuplicates(ids)
  {
    var seen: set<string> := {};
    for n := 0 to |ids|
      invariant seen == set i | 0 <= i < n :: ids[i]
      invariant Q.NoDuplicates(ids[..n])
    {
      if ids[n] in seen {
        var i :| 0 <= i < n && ids[i] == ids[n];
        return false;
      }
      seen := seen + {ids[n]};
      assert ids[..n + 1] == ids[..n] + [ids[n]];
    }
    assert ids[..|ids|] == ids;
    return true;
  }

  method AllLeased(jobs: seq<Q.Job>, ids: seq<string>) returns (leased: bool)
    ensures leased <==> forall id :: id in ids ==> Q.LeasedIn(jobs, id)
  {
    for n := 0 to |ids|
      invariant forall i :: 0 <= i < n ==> Q.LeasedIn(jobs, ids[i])
    {
      var i := Locate(jobs, ids[n]);
      if i == |jobs| || jobs[i].status != Q.Leased {
        assert ids[n] in ids && !Q.LeasedIn(jobs, ids[n]);
        return false;
      }
    }
    return true;
  }

  /** Complete the jobs one id at a time. */
  method CompleteEach(q: seq<Q.Job>, ids: seq<string>, now: i64) returns (jobs: seq<Q.Job>, done: seq<Q.Job>)
    requires Q.DistinctIds(q) && B.Ackable(q, ids)
    ensures jobs == Q.CompleteAll(q, ids, now) && done == Q.Completions(q, ids, now)
  {
    jobs, done := q, [];
    for n := 0 to |ids|
      invariant jobs == Q.CompleteAll(q, ids[..n], now)
      invariant done == Q.Completions(q, ids, now)[..n]
    {
      CompleteOne(q, ids, n, now);
      var i := Locate(jobs, ids[n]);
      var job := jobs[i].(status := Q.Completed, completedAt := Some(now));
      jobs := jobs[i := job];
      done := done + [job];
    }
    assert ids[..|ids|] == ids;
  }

  lemma CompleteOne(q: seq<Q.Job>, ids: seq<string>, n: nat, now: i64)
    requires Q.DistinctIds(q) && B.Ackable(q, ids) && n < |ids|
    ensures var jobs := Q.CompleteAll(q, ids[..n], now);
      var i := Q.IndexOf(jobs, ids[n]);
      && i < |jobs| && jobs[i := Q.CompleteJob(jobs[i], now)] == Q.CompleteAll(q, ids[..n + 1], now)
      && Q.Completions(q, ids, now)[..n + 1] == Q.Completions(q, ids, now)[..n] + [Q.CompleteJob(jobs[i], now)]
  {
    B.IndexOfCompleted(q, ids[..n], now, ids[n]);
    B.AckLast(q, ids[..n], ids[n], now);
    assert ids[n] in ids && Q.LeasedIn(q, ids[n]) && ids[n] !in ids[..n];
    assert ids[..n + 1] == ids[..n] + [ids[n]];
  }

  /** Check the cap, the ids for duplicates and then every job, before the first is completed. A queue that does
      not exist has no jobs, so that any id conflicts. */
  method AcknowledgeAll(q: seq<Q.Job>, ids: seq<string>, now: i64)
    returns (jobs: seq<Q.Job>, r: Result<seq<Q.Job>, Error>)
    requires Q.DistinctIds(q)
    ensures (jobs, r) == Q.AckMany(q, ids, now)
  {
    if |ids| > Q.MAX_QUEUE_BATCH_ITEMS {
      return q, Err(InvalidInput);
    }
    var distinct := AllDistinct(ids);
    if !distinct {
      return q, Err(InvalidInput);
    }
    if ids == [] {
      assert Q.CompleteAll(q, ids, now) == q && Q.Completions(q, ids, now) == [];
      return q, Ok([]);
    }
    var leased := AllLeased(q, ids);
    if !leased {
      return q, Err(Conflict);
    }
    var done;
    jobs, done := CompleteEach(q, ids, now);
    return jobs, Ok(done);
  }

  predicate Same(x: Option<J.Value>, y: Option<J.Value>) {
    x.Some? && y.Some? && J.JsonEq(x.value, y.value)
  }

  /** The value is one of these. */
  ghost predicate Repeats(values: seq<J.Value>, x: Option<J.Value>) {
    exists v :: v in values && Same(Some(v), x)
  }

  ghost predicate AllDiffer<K(!new)>(g: K -> Option<J.Value>, keys: set<K>) {
    forall a, b :: a in keys && b in keys && a != b ==> !Same(g(a), g(b))
  }

  /** These are the values of these keys. */
  ghost predicate Gathered<K(!new)>(g: K -> Option<J.Value>, keys: set<K>, values: seq<J.Value>) {
    && (forall v :: v in values ==> exists k :: k in keys && g(k) == Some(v))
    && (forall k :: k in keys && g(k).Some? ==> g(k).value in values)
  }

  lemma GatherOne<K(!new)>(g: K -> Option<J.Value>, keys: set<K>, k: K, values: seq<J.Value>)
    requires Gathered(g, keys, values) && k !in keys
    ensures g(k).None? ==> Gathered(g, keys + {k}, values)
    ensures g(k).Some? ==> Gathered(g, keys + {k}, values + [g(k).value])
  {
    forall v | v in values ensures exists a :: a in keys + {k} && g(a) == Some(v) {
      var a :| a in keys && g(a) == Some(v);
      assert a in keys + {k};
    }
  }

  lemma DifferOne<K(!new)>(g: K -> Option<J.Value>, keys: set<K>, k: K, values: seq<J.Value>)
    requires Gathered(g, keys, values) && k !in keys && AllDiffer(g, keys)
    requires !Repeats(values, g(k))
    ensures AllDiffer(g, keys + {k})
  {
    forall a, b | a in keys + {k} && b in keys + {k} && a != b ensures !Same(g(a), g(b)) {
      if g(a).Some? && g(b).Some? {
        J.JsonEqSymmetric(g(a).value, g(b).value);
      }
    }
  }

  lemma RepeatFound<K(!new)>(g: K -> Option<J.Value>, keys: set<K>, k: K, values: seq<J.Value>)
    requires Gathered(g, keys, values) && k !in keys && Repeats(values, g(k))
    ensures !AllDiffer(g, keys + {k})
  {
    var v :| v in values && Same(Some(v), g(k));
    var a :| a in keys && g(a) == Some(v);
    assert Same(g(a), g(k));
  }

  ghost function FieldOf(parse: O.Parser, objects: map<O.Key, O.Object>, collection: string, field: string)
    : O.Key -> Option<J.Value>
  {
    (k: O.Key) => if k in objects && k.collection == collection then O.Indexed(parse, objects[k], field) else None
  }

  lemma UniqueIffDiffer(parse: O.Parser, objects: map<O.Key, O.Object>, collection: string, field: string)
    ensures O.FieldIsUnique(parse, objects, collection, field) <==>
            AllDiffer(FieldOf(parse, objects, collection, field), objects.Keys)
  {
    var g := FieldOf(parse, objects, collection, field);
    if AllDiffer(g, objects.Keys) {
      forall a, b | a in objects && b in objects && a != b && a.collection == collection && b.collection == collection
        ensures !O.Clash(parse, objects[a], objects[b], field)
      {
        assert !Same(g(a), g(b));
      }
    }
    if O.FieldIsUnique(parse, objects, collection, field) {
      forall a, b | a in objects.Keys && b in objects.Keys && a != b ensures !Same(g(a), g(b)) {
        assert a.collection == collection && b.collection == collection ==>
          !O.Clash(parse, objects[a], objects[b], field);
      }
    }
  }

  /** Collect the values of a field, looking each one up among those collected before. */
  method NoRepeats(parse: O.Parser, objects: map<O.Key, O.Object>, collection: string, field: string)
    returns (unique: bool)
    ensures unique <==> O.FieldIsUnique(parse, objects, collection, field)
  {
    ghost var g := FieldOf(parse, objects, collection, field);
    UniqueIffDiffer(parse, objects, collection, field);
    var values: seq<J.Value> := [];
    var todo := objects.Keys;
    while todo != {}
      invariant todo <= objects.Keys
      invariant AllDiffer(g, objects.Keys - todo) && Gathered(g, objects.Keys - todo, values)
      decreases todo
    {
      var k :| k in todo;
      ghost var seen := objects.Keys - todo;
      var value := if k.collection == collection then O.Indexed(parse, objects[k], field) else None;
      if value.Some? {
        var repeated := Contains(values, value.value);
        if repeated {
          RepeatFound(g, seen, k, values);
          return false;
        }
      }
      DifferOne(g, seen, k, values);
      GatherOne(g, seen, k, values);
      todo := todo - {k};
      assert objects.Keys - todo == seen + {k};
      if value.Some? {
        values := values + [value.value];
      }
    }
    return true;
  }

  method Contains(values: seq<J.Value>, value: J.Value) returns (found: bool)
    ensures found <==> Repeats(values, Some(value))
  {
    for i := 0 to |values|
      invariant forall j :: 0 <= j < i ==> !J.JsonEq(values[j], value)
    {
      if J.JsonEq(values[i], value) {
        assert values[i] in values;
        return true;
      }
    }
    return false;
  }

  // ------------------------------------------- the queue part of the invariant

  lemma PushKeeps(queues: Q.Queues, job: Q.Job)
    ensures QueuesOk(queues) ==> QueuesOk(queues[job.queue := Q.Push(Q.JobsIn(queues, job.queue), job).0])
  {
    if QueuesOk(queues) {
      R.PushStep(Q.JobsIn(queues, job.queue), job, job.id);
    }
  }

  lemma StepKeeps(queues: Q.Queues, name: string, op: R.Op)
    requires name in queues && !op.PushOp?
    ensures QueuesOk(queues) ==> QueuesOk(queues[name := R.Step(queues[name], op).0])
  {
    if QueuesOk(queues) {
      var q, q' := queues[name], R.Step(queues[name], op).0;
      Q.FindAt(q, 0);
      R.IdentityStep(q, op, q[0].id);
      forall i | 0 <= i < |q'| ensures q'[i].queue == name {
        R.IdentityStep(q, op, q'[i].id);
        Q.FindAt(q', i);
        assert Q.Find(q, q'[i].id).value in q;
      }
    }
  }

  /** An operation on one queue keeps the invariant of the store. */
  lemma QueueKept(parse: O.Parser, s: Store, name: string, op: R.Op, jobs: seq<Q.Job>)
    requires name in s.queues && !op.PushOp? && jobs == R.Step(s.queues[name], op).0
    ensures QueuesOk(s.queues) ==> QueuesOk(s.queues[name := jobs])
    ensures StoreOk(parse, s) ==> StoreOk(parse, s.(queues := s.queues[name := jobs]))
  {
    StepKeeps(s.queues, name, op);
  }

  lemma ClaimKept(parse: O.Parser, s: Store, name: string, release: i64, now: i64, leaseMs: u64, jobs: seq<Q.Job>)
    requires name in s.queues && jobs == Q.ClaimOne(s.queues[name], release, now, leaseMs).0
    ensures StoreOk(parse, s) ==> StoreOk(parse, s.(queues := s.queues[name := jobs]))
  {
    QueueKept(parse, s, name, R.ClaimOp(release, now, leaseMs), jobs);
  }

  lemma BatchKept(parse: O.Parser, s: Store, name: string, release: i64, now: i64, leaseMs: u64,
                  limit: nat, jobs: seq<Q.Job>)
    requires name in s.queues && 0 < limit <= Q.MAX_QUEUE_BATCH_ITEMS
    requires jobs == Q.ClaimUpTo(false, s.queues[name], release, now, leaseMs, limit).0
    ensures StoreOk(parse, s) ==> StoreOk(parse, s.(queues := s.queues[name := jobs]))
  {
    QueueKept(parse, s, name, R.ClaimManyOp(release, now, leaseMs, limit), jobs);
  }

  lemma NothingToClaim(release: i64, now: i64, leaseMs: u64, limit: nat)
    ensures Q.ClaimUpTo(false, [], release, now, leaseMs, limit) == ([], [])
  {
  }

  /** So does an append below the counter's maximum. */
  lemma LogKept(parse: O.Parser, s: Store, e: E.Event, now: string)
    ensures StoreOk(parse, s) && now != "" && s.log.next < U64_MAX ==>
            StoreOk(parse, s.(log := E.Append(s.log, e, now).0))
  {
    if StoreOk(parse, s) && s.log.next < U64_MAX {
      E.AppendKeepsOrder(s.log, e, now);
    }
  }
}
