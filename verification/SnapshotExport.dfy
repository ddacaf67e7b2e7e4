/** Exporting a logical snapshot: the paged listing loops and the records they yield. */
module SnapshotExport {
  import opened Prelude
  import opened Ordering
  import opened Stores
  import opened Engine
  import opened SnapshotImport
  import O = Objects
  import E = EventLog
  import L = Links
  import Q = Queue

  const SNAPSHOT_PAGE_SIZE := 250
  const SNAPSHOT_VERSION := "2.1.0"

  // ------------------------------------------------------------- listings

  function CollectionNames(objects: map<O.Key, O.Object>): set<string> {
    set k | k in objects :: k.collection
  }

  function IdsIn(objects: map<O.Key, O.Object>, collection: string): set<string> {
    set k | k in objects && k.collection == collection :: k.id
  }

  /** `list_objects` of one collection: ascending ids. */
  function ListObjects(objects: map<O.Key, O.Object>, collection: string): (r: seq<O.Object>)
    ensures |r| == |IdsIn(objects, collection)|
  {
    var ids := Ascending(IdsIn(objects, collection));
    seq(|ids|, i requires 0 <= i < |ids| => IdStands(objects, collection, ids[i]); objects[O.Key(collection, ids[i])])
  }

  lemma IdStands(objects: map<O.Key, O.Object>, collection: string, id: string)
    requires id in IdsIn(objects, collection)
    ensures O.Key(collection, id) in objects
  {
  }

  /** The objects of the first `n` collections, one collection after the other. */
  function AllObjects(objects: map<O.Key, O.Object>, collections: seq<string>, n: nat): seq<O.Object>
    requires n <= |collections|
  {
    if n == 0 then [] else AllObjects(objects, collections, n - 1) + ListObjects(objects, collections[n - 1])
  }

  function DeadJobs(jobs: seq<Q.Job>): seq<Q.Job> {
    Filter((j: Q.Job) => j.status == Q.Dead, jobs)
  }

  /** A queue's jobs, followed by its dead jobs once more. */
  function ListedJobs(queues: Q.Queues, name: string): seq<Q.Job> {
    Q.JobsIn(queues, name) + DeadJobs(Q.JobsIn(queues, name))
  }

  function AllJobs(queues: Q.Queues, names: seq<string>, n: nat): seq<Q.Job>
    requires n <= |names|
  {
    if n == 0 then [] else AllJobs(queues, names, n - 1) + ListedJobs(queues, names[n - 1])
  }

  function ExportedObjects(s: Store): seq<O.Object> {
    var collections := Ascending(CollectionNames(s.shelf.objects));
    AllObjects(s.shelf.objects, collections, |collections|)
  }

  function ExportedJobs(s: Store): seq<Q.Job> {
    var names := Ascending(s.queues.Keys);
    AllJobs(s.queues, names, |names|)
  }

  /** The records of a snapshot, in order. */
  function Records(s: Store): seq<Record> {
    [Header(SNAPSHOT_VERSION)]
    + Map(o => ObjectRecord(o), ExportedObjects(s))
    + Map(l => LinkRecord(l), Sort(L.ById, s.table.links))
    + Map(e => EventRecord(e), s.log.events)
    + Map(j => QueueRecord(j), ExportedJobs(s))
  }

  // --------------------------------------------------------- offset paging

  lemma PageContinues<T>(s: seq<T>, offset: nat)
    requires offset <= |s|
    ensures var page := Page(s, offset, SNAPSHOT_PAGE_SIZE);
      && s[..offset] + page == s[..offset + |page|]
      && (|page| < SNAPSHOT_PAGE_SIZE ==> offset + |page| == |s|)
      && |page| <= SNAPSHOT_PAGE_SIZE
  {
  }

  /** Offset paging over a store that does not change lists each object of the collection once, in order. */
  method PageObjects(objects: map<O.Key, O.Object>, collection: string) returns (out: seq<O.Object>)
    ensures out == ListObjects(objects, collection)
  {
    var listing := ListObjects(objects, collection);
    out := [];
    var offset := 0;
    while true
      invariant offset <= |listing| && out == listing[..offset]
      decreases |listing| - offset
    {
      var page := Page(listing, offset, SNAPSHOT_PAGE_SIZE);
      PageContinues(listing, offset);
      out := out + page;
      if |page| < SNAPSHOT_PAGE_SIZE {
        break;
      }
      offset := offset + |page|;
    }
  }

  method PageLinks(table: L.Table) returns (out: seq<L.Link>)
    ensures out == Sort(L.ById, table.links)
  {
    out := [];
    var offset := 0;
    ghost var listing := Sort(L.ById, table.links);
    while true
      invariant offset <= |listing| && out == listing[..offset]
      decreases |listing| - offset
    {
      var page := L.List(table, offset, SNAPSHOT_PAGE_SIZE);
      PageContinues(listing, offset);
      out := out + page;
      if |page| < SNAPSHOT_PAGE_SIZE {
        break;
      }
      offset := offset + |page|;
    }
  }

  // --------------------------------------------------------- cursor paging

  /** The log after the operations in order. */
  function RunAll(log: E.Log, ops: seq<E.Op>): E.Log {
    if ops == [] then log else E.Step(RunAll(log, ops[..|ops| - 1]), ops[|ops| - 1])
  }

  /** The log when page `r` is read: the batches before it have run, and the last state stays. */
  function ReadAt(log: E.Log, batches: seq<seq<E.Op>>, r: nat): E.Log {
    if r == 0 then log
    else if r > |batches| then ReadAt(log, batches, r - 1)
    else RunAll(ReadAt(log, batches, r - 1), batches[r - 1])
  }

  function TotalLength(batches: seq<seq<E.Op>>, n: nat): nat
    requires n <= |batches|
  {
    if n == 0 then 0 else TotalLength(batches, n - 1) + |batches[n - 1]|
  }

  /** Whatever happens to a log, what it shows of the sequences issued so far was there before. */
  ghost predicate Descends(log: E.Log, later: E.Log) {
    log.next <= later.next && forall e :: e in later.events && e.sequence <= log.next ==> e in log.events
  }

  lemma StepDescends(log: E.Log, op: E.Op)
    requires E.LogOk(log) && log.next < U64_MAX
    ensures E.LogOk(E.Step(log, op)) && E.Step(log, op).next <= log.next + 1 && Descends(log, E.Step(log, op))
  {
    E.StepKeeps(log, op);
    E.StepCounter(log, op);
  }

  lemma {:induction false} RunDescends(log: E.Log, ops: seq<E.Op>)
    requires E.LogOk(log) && log.next + |ops| <= U64_MAX
    ensures var later := RunAll(log, ops);
      E.LogOk(later) && later.next <= log.next + |ops| && Descends(log, later)
  {
    if ops != [] {
      var init := ops[..|ops| - 1];
      RunDescends(log, init);
      StepDescends(RunAll(log, init), ops[|ops| - 1]);
    }
  }

  lemma {:induction false} TotalGrows(batches: seq<seq<E.Op>>, m: nat, n: nat)
    requires m <= n <= |batches|
    ensures TotalLength(batches, m) <= TotalLength(batches, n)
    decreases n
  {
    if m < n {
      TotalGrows(batches, m, n - 1);
    }
  }

  function Min(m: nat, n: nat): nat {
    if m < n then m else n
  }

  ghost predicate ReadOk(log: E.Log, batches: seq<seq<E.Op>>, r: nat) {
    var read := ReadAt(log, batches, r);
    E.LogOk(read) && read.next <= log.next + TotalLength(batches, Min(r, |batches|))
  }

  lemma NextRead(log: E.Log, batches: seq<seq<E.Op>>, r: nat)
    requires log.next + TotalLength(batches, |batches|) <= U64_MAX && ReadOk(log, batches, r)
    ensures ReadOk(log, batches, r + 1) && Descends(ReadAt(log, batches, r), ReadAt(log, batches, r + 1))
  {
    if r < |batches| {
      TotalGrows(batches, r + 1, |batches|);
      RunDescends(ReadAt(log, batches, r), batches[r]);
    }
  }

  lemma {:induction false} FilterNone<T(!new)>(keep: T -> bool, s: seq<T>)
    requires forall x :: x in s ==> !keep(x)
    ensures Filter(keep, s) == []
  {
    if s != [] {
      FilterNone(keep, s[..|s| - 1]);
    }
  }

  /** A full page goes as far as the event. */
  predicate Reaches(page: seq<E.Event>, e: E.Event) {
    |page| == SNAPSHOT_PAGE_SIZE ==> e.sequence <= page[|page| - 1].sequence
  }

  lemma PrefixReaches(rest: seq<E.Event>, page: seq<E.Event>, e: E.Event)
    requires Pairwise(E.Earlier, rest) && |page| <= |rest| && page == rest[..|page|]
    requires |page| < SNAPSHOT_PAGE_SIZE ==> page == rest
    requires e in rest && Reaches(page, e) && |page| <= SNAPSHOT_PAGE_SIZE
    ensures e in page
  {
    forall k | 0 < |page| <= k < |rest| ensures page[|page| - 1].sequence < rest[k].sequence {
      assert E.Earlier(rest[|page| - 1], rest[k]);
    }
    var k :| 0 <= k < |rest| && rest[k] == e;
    assert k < |page|;
    assert page[k] == e;
  }

  lemma PrefixPairwise(rest: seq<E.Event>, n: nat)
    requires Pairwise(E.Earlier, rest) && n <= |rest|
    ensures Pairwise(E.Earlier, rest[..n]) && forall e :: e in rest[..n] ==> e in rest
  {
  }

  /** A page holds, in order, the next events behind the cursor: all of them when it is short, and else all up to
      its own last one. */
  lemma PageFacts(log: E.Log, cursor: u64)
    requires E.LogOk(log)
    ensures var page := E.ListEvents(log, None, Some(cursor), None, Some(SNAPSHOT_PAGE_SIZE));
      && Pairwise(E.Earlier, page) && |page| <= SNAPSHOT_PAGE_SIZE
      && (forall e :: e in page ==> e in log.events && e.sequence > cursor)
      && (forall e :: e in log.events && e.sequence > cursor && Reaches(page, e) ==> e in page)
  {
    var keep := E.Listed(None, Some(cursor), None);
    var rest := Filter(keep, log.events);
    var page := E.ListEvents(log, None, Some(cursor), None, Some(SNAPSHOT_PAGE_SIZE));
    FilterPairwise(keep, E.Earlier, log.events);
    assert page == rest[..|page|];
    PrefixPairwise(rest, |page|);
    forall e | e in rest && Reaches(page, e) ensures e in page {
      PrefixReaches(rest, page, e);
    }
  }

  /** Emit a page, moving the cursor to the sequence of each event emitted. */
  method EmitPage(emitted: seq<E.Event>, cursor: u64, page: seq<E.Event>) returns (out: seq<E.Event>, fromSequence: u64)
    ensures out == emitted + page
    ensures fromSequence == if page == [] then cursor else page[|page| - 1].sequence
  {
    out, fromSequence := emitted, cursor;
    for i := 0 to |page|
      invariant out == emitted + page[..i] && fromSequence == if i == 0 then cursor else page[i - 1].sequence
    {
      fromSequence := page[i].sequence;
      out := out + [page[i]];
    }
  }

  /** What has been emitted when the cursor stands at `cursor`, against the log that is read next. */
  ghost predicate EmittedTo(log: E.Log, out: seq<E.Event>, cursor: u64) {
    && Pairwise(E.Earlier, out) && (forall e :: e in out ==> e.sequence <= cursor) && cursor <= log.next
    && (forall e :: e in log.events && e.sequence <= cursor ==> e in out)
  }

  ghost predicate Includes(out: seq<E.Event>, log: E.Log) {
    forall e :: e in log.events ==> e in out
  }

  lemma EmitMore(log: E.Log, out: seq<E.Event>, cursor: u64, page: seq<E.Event>)
    requires E.LogOk(log) && EmittedTo(log, out, cursor)
    requires page == E.ListEvents(log, None, Some(cursor), None, Some(SNAPSHOT_PAGE_SIZE))
    ensures var cursor' := if page == [] then cursor else page[|page| - 1].sequence;
      && EmittedTo(log, out + page, cursor') && (forall e :: e in page ==> e in log.events)
      && (if |page| < SNAPSHOT_PAGE_SIZE then Includes(out + page, log) else cursor < cursor')
  {
    PageFacts(log, cursor);
    var more, cursor' := out + page, if page == [] then cursor else page[|page| - 1].sequence;
    forall i, k | 0 <= i < k < |more| ensures E.Earlier(more[i], more[k]) {
      if i < |out| {
        assert out[i] in out;
      }
      if |out| <= k {
        assert page[k - |out|] in page;
      }
    }
    forall e | e in page ensures e.sequence <= cursor' {
      var k :| 0 <= k < |page| && page[k] == e;
      assert k < |page| - 1 ==> E.Earlier(page[k], page[|page| - 1]);
    }
  }

  /** One round of the loop: list from the cursor, emit, and tell whether the page was short. */
  method NextPage(log: E.Log, emitted: seq<E.Event>, cursor: u64)
    returns (out: seq<E.Event>, fromSequence: u64, last: bool)
    requires E.LogOk(log) && EmittedTo(log, emitted, cursor)
    ensures EmittedTo(log, out, fromSequence)
    ensures forall e :: e in out ==> e in emitted || e in log.events
    ensures if last then Includes(out, log) else cursor < fromSequence
  {
    var page := E.ListEvents(log, None, Some(cursor), None, Some(SNAPSHOT_PAGE_SIZE));
    EmitMore(log, emitted, cursor, page);
    out, fromSequence := EmitPage(emitted, cursor, page);
    PageFacts(log, cursor);
    last := |page| < SNAPSHOT_PAGE_SIZE;
  }

  /** The event was in the log when one of the first `n` pages was read. */
  ghost predicate SeenLive(log: E.Log, batches: seq<seq<E.Op>>, n: nat, e: E.Event) {
    exists r :: 0 <= r < n && e in ReadAt(log, batches, r).events
  }

  ghost predicate AllSeen(log: E.Log, batches: seq<seq<E.Op>>, n: nat, out: seq<E.Event>) {
    forall e :: e in out ==> SeenLive(log, batches, n, e)
  }

  /** Where the loop stands when it is about to read page `r`. */
  ghost predicate Paged(log: E.Log, batches: seq<seq<E.Op>>, r: nat, out: seq<E.Event>, cursor: u64) {
    && ReadOk(log, batches, r) && EmittedTo(ReadAt(log, batches, r), out, cursor)
    && AllSeen(log, batches, r, out)
  }

  lemma PagedNext(log: E.Log, batches: seq<seq<E.Op>>, r: nat, emitted: seq<E.Event>, before: u64,
                  out: seq<E.Event>, cursor: u64)
    requires log.next + TotalLength(batches, |batches|) <= U64_MAX
    requires Paged(log, batches, r, emitted, before) && EmittedTo(ReadAt(log, batches, r), out, cursor)
    requires forall e :: e in out ==> e in emitted || e in ReadAt(log, batches, r).events
    ensures Paged(log, batches, r + 1, out, cursor)
  {
    NextRead(log, batches, r);
    EmittedLater(ReadAt(log, batches, r), ReadAt(log, batches, r + 1), out, cursor);
    forall e | e in out ensures SeenLive(log, batches, r + 1, e) {
      if e in emitted {
        assert SeenLive(log, batches, r, e);
      }
    }
  }

  lemma EmittedLater(log: E.Log, later: E.Log, out: seq<E.Event>, cursor: u64)
    requires EmittedTo(log, out, cursor) && Descends(log, later)
    ensures EmittedTo(later, out, cursor)
  {
  }

  ghost function PagedIn(log: E.Log, batches: seq<seq<E.Op>>): (nat, seq<E.Event>, u64) -> bool {
    (r: nat, out: seq<E.Event>, cursor: u64) => Paged(log, batches, r, out, cursor)
  }

  lemma PagedFirst(log: E.Log, batches: seq<seq<E.Op>>)
    requires E.LogOk(log)
    ensures PagedIn(log, batches)(0, [], 0)
  {
  }

  lemma PagedNow(log: E.Log, batches: seq<seq<E.Op>>, r: nat, out: seq<E.Event>, cursor: u64)
    requires PagedIn(log, batches)(r, out, cursor)
    ensures E.LogOk(ReadAt(log, batches, r)) && EmittedTo(ReadAt(log, batches, r), out, cursor)
  {
  }

  lemma PagedOn(log: E.Log, batches: seq<seq<E.Op>>, r: nat, emitted: seq<E.Event>, before: u64,
                out: seq<E.Event>, cursor: u64)
    requires log.next + TotalLength(batches, |batches|) <= U64_MAX
    requires PagedIn(log, batches)(r, emitted, before) && EmittedTo(ReadAt(log, batches, r), out, cursor)
    requires forall e :: e in out ==> e in emitted || e in ReadAt(log, batches, r).events
    ensures PagedIn(log, batches)(r + 1, out, cursor) && cursor <= ReadAt(log, batches, r + 1).next
  {
    PagedNext(log, batches, r, emitted, before, out, cursor);
  }

  lemma PagedLast(log: E.Log, batches: seq<seq<E.Op>>, r: nat, out: seq<E.Event>, cursor: u64)
    requires PagedIn(log, batches)(r, out, cursor)
    ensures Pairwise(E.Earlier, out) && AllSeen(log, batches, r, out)
  {
  }

  lemma ReadStays(log: E.Log, batches: seq<seq<E.Op>>, r: nat)
    ensures ReadAt(log, batches, r + 1) ==
            if r < |batches| then RunAll(ReadAt(log, batches, r), batches[r]) else ReadAt(log, batches, r)
  {
  }

  /** One page, and the batch that runs after it. */
  method Round(log: E.Log, batches: seq<seq<E.Op>>, r: nat, current: E.Log, emitted: seq<E.Event>, cursor: u64)
    returns (next: E.Log, out: seq<E.Event>, fromSequence: u64, last: bool)
    requires log.next + TotalLength(batches, |batches|) <= U64_MAX
    requires current == ReadAt(log, batches, r) && PagedIn(log, batches)(r, emitted, cursor)
    ensures next == ReadAt(log, batches, r + 1) && PagedIn(log, batches)(r + 1, out, fromSequence)
    ensures last ==> Includes(out, ReadAt(log, batches, r))
    ensures fromSequence <= next.next && (last || r < |batches| || (next == current && cursor < fromSequence))
  {
    PagedNow(log, batches, r, emitted, cursor);
    out, fromSequence, last := NextPage(current, emitted, cursor);
    PagedOn(log, batches, r, emitted, cursor, out, fromSequence);
    ReadStays(log, batches, r);
    next := if r < |batches| then RunAll(current, batches[r]) else current;
  }

  /** The event export loop, with any finite number of appends and deletions between its pages: batch `i` runs after
      page `i`, as long as the loop goes on. It ends; what it emits increases strictly, holds every event that is in
      the log when the last page is read, and holds only events that were in the log when their page was read. */
  method PageEvents(log: E.Log, batches: seq<seq<E.Op>>) returns (out: seq<E.Event>, pages: nat)
    requires E.LogOk(log) && log.next + TotalLength(batches, |batches|) <= U64_MAX
    ensures pages > 0 && Pairwise(E.Earlier, out)
    ensures Includes(out, ReadAt(log, batches, pages - 1)) && AllSeen(log, batches, pages, out)
  {
    var current, fromSequence: u64, last := log, 0, false;
    out, pages := [], 0;
    PagedFirst(log, batches);
    while !last
      invariant current == ReadAt(log, batches, pages) && PagedIn(log, batches)(pages, out, fromSequence)
      invariant last ==> pages > 0 && Includes(out, ReadAt(log, batches, pages - 1))
      invariant fromSequence <= current.next
      decreases !last, |batches| - Min(pages, |batches|), current.next - fromSequence
    {
      current, out, fromSequence, last := Round(log, batches, pages, current, out, fromSequence);
      pages := pages + 1;
    }
    PagedLast(log, batches, pages, out, fromSequence);
  }

  // ---------------------------------------------------------- appends only

  lemma LastIsLater(a: seq<E.Event>)
    requires a != [] && Pairwise(E.Earlier, a)
    ensures a[|a| - 1] !in a[..|a| - 1]
  {
    assert forall i :: 0 <= i < |a| - 1 ==> E.Earlier(a[i], a[|a| - 1]);
  }

  lemma AtMostLast(a: seq<E.Event>, e: E.Event)
    requires Pairwise(E.Earlier, a) && e in a
    ensures e == a[|a| - 1] || E.Earlier(e, a[|a| - 1])
  {
  }

  lemma SameRest(a: seq<E.Event>, b: seq<E.Event>, e: E.Event)
    requires Pairwise(E.Earlier, a) && a != [] && b != [] && a[|a| - 1] == b[|b| - 1] && e in a[..|a| - 1]
    requires forall x :: x in a ==> x in b
    ensures e in b[..|b| - 1]
  {
    LastIsLater(a);
    assert a == a[..|a| - 1] + [a[|a| - 1]] && b == b[..|b| - 1] + [b[|b| - 1]];
    assert e in a;
  }

  lemma NoElements<T>(s: seq<T>)
    ensures s == [] <==> forall x :: x !in s
  {
    if s != [] {
      assert s[0] in s;
    }
  }

  lemma SameEnds(a: seq<E.Event>, b: seq<E.Event>, a': seq<E.Event>, b': seq<E.Event>)
    requires Pairwise(E.Earlier, a) && Pairwise(E.Earlier, b) && a != [] && b != [] && forall e :: e in a <==> e in b
    requires a' == a[..|a| - 1] && b' == b[..|b| - 1]
    ensures a[|a| - 1] == b[|b| - 1] && forall e :: e in a' <==> e in b'
  {
    AtMostLast(a, b[|b| - 1]);
    AtMostLast(b, a[|a| - 1]);
    forall e | e in a' ensures e in b' {
      SameRest(a, b, e);
    }
    forall e | e in b' ensures e in a' {
      SameRest(b, a, e);
    }
  }

  lemma {:induction false} SameInOrder(a: seq<E.Event>, b: seq<E.Event>)
    requires Pairwise(E.Earlier, a) && Pairwise(E.Earlier, b) && forall e :: e in a <==> e in b
    ensures a == b
  {
    if a == [] {
      NoElements(b);
    } else {
      assert a[0] in b;
      var a', b' := a[..|a| - 1], b[..|b| - 1];
      SameEnds(a, b, a', b');
      SameInOrder(a', b');
      assert a == a' + [a[|a| - 1]] && b == b' + [b[|b| - 1]];
    }
  }

  ghost predicate AppendsOnly(batches: seq<seq<E.Op>>) {
    forall i, k :: 0 <= i < |batches| && 0 <= k < |batches[i]| ==> batches[i][k].AppendOp?
  }

  lemma {:induction false} AppendsExtend(log: E.Log, ops: seq<E.Op>)
    requires forall k :: 0 <= k < |ops| ==> ops[k].AppendOp?
    ensures log.events <= RunAll(log, ops).events
  {
    if ops != [] {
      AppendsExtend(log, ops[..|ops| - 1]);
    }
  }

  lemma {:induction false} ReadExtends(log: E.Log, batches: seq<seq<E.Op>>, r: nat, n: nat)
    requires AppendsOnly(batches) && r <= n
    ensures ReadAt(log, batches, r).events <= ReadAt(log, batches, n).events
    decreases n
  {
    if r < n {
      ReadExtends(log, batches, r, n - 1);
      if n <= |batches| {
        AppendsExtend(ReadAt(log, batches, n - 1), batches[n - 1]);
      }
    }
  }

  /** With nothing but appends between the pages, such an export is the whole log as it stands when the last page is
      read, each event once and in order. */
  lemma AppendsAreExported(log: E.Log, batches: seq<seq<E.Op>>, out: seq<E.Event>, pages: nat)
    requires AppendsOnly(batches) && pages > 0 && Pairwise(E.Earlier, out)
    requires E.LogOk(ReadAt(log, batches, pages - 1))
    requires Includes(out, ReadAt(log, batches, pages - 1))
    requires AllSeen(log, batches, pages, out)
    ensures out == ReadAt(log, batches, pages - 1).events
  {
    forall e | e in out ensures e in ReadAt(log, batches, pages - 1).events {
      var r :| 0 <= r < pages && e in ReadAt(log, batches, r).events;
      ReadExtends(log, batches, r, pages - 1);
    }
    SameInOrder(out, ReadAt(log, batches, pages - 1).events);
  }

  // ------------------------------------------------------------- the export

  method ExportObjects(objects: map<O.Key, O.Object>) returns (out: seq<O.Object>)
    ensures var collections := Ascending(CollectionNames(objects));
      out == AllObjects(objects, collections, |collections|)
  {
    var collections := Ascending(CollectionNames(objects));
    out := [];
    for i := 0 to |collections|
      invariant out == AllObjects(objects, collections, i)
    {
      var listed := PageObjects(objects, collections[i]);
      out := out + listed;
    }
  }

  method ExportJobs(queues: Q.Queues) returns (out: seq<Q.Job>)
    ensures var names := Ascending(queues.Keys);
      out == AllJobs(queues, names, |names|)
  {
    var names := Ascending(queues.Keys);
    out := [];
    for i := 0 to |names|
      invariant out == AllJobs(queues, names, i)
    {
      var jobs := Q.JobsIn(queues, names[i]);
      jobs := jobs + DeadJobs(jobs);
      out := out + jobs;
    }
  }

  lemma {:induction false} NothingRuns(log: E.Log, r: nat)
    ensures ReadAt(log, [], r) == log
  {
    if r > 0 {
      NothingRuns(log, r - 1);
    }
  }

  lemma QuietExport(log: E.Log, out: seq<E.Event>, pages: nat)
    requires E.LogOk(log) && pages > 0 && Pairwise(E.Earlier, out)
    requires Includes(out, ReadAt(log, [], pages - 1))
    requires AllSeen(log, [], pages, out)
    ensures out == log.events
  {
    NothingRuns(log, pages - 1);
    AppendsAreExported(log, [], out, pages);
  }

  /** The export of an engine that does not change while it runs. */
  method Export(engine: MemoryEngine) returns (out: seq<Record>)
    requires E.LogOk(engine.Log())
    ensures out == Records(engine.View())
  {
    var objects := ExportObjects(engine.objects);
    var links := PageLinks(L.Table(engine.links, engine.nextLinkId));
    var log := E.Log(engine.events, engine.nextEventSequence, engine.eventKeys);
    var events, pages := PageEvents(log, []);
    QuietExport(log, events, pages);
    var jobs := ExportJobs(engine.queues);
    return [Header(SNAPSHOT_VERSION)] + Map(o => ObjectRecord(o), objects) + Map(l => LinkRecord(l), links)
      + Map(e => EventRecord(e), events) + Map(j => QueueRecord(j), jobs);
  }
}
