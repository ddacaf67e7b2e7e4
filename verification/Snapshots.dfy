/** What a snapshot consists of, and accepting its records one after the other. */
module Snapshots {
  import opened Prelude
  import opened Ordering
  import opened Framing
  import opened Stores
  import opened SnapshotImport
  import opened SnapshotExport
  import O = Objects
  import E = EventLog
  import L = Links
  import Q = Queue

  type Acceptor<!S, !R> = (S, R) -> (S, bool)

  /** Accept records in order until one is rejected. */
  function AcceptAll<S, R>(f: Acceptor<S, R>, s: S, rs: seq<R>): (S, bool) {
    if rs == [] then (s, true) else
      var (s', ok) := AcceptAll(f, s, rs[..|rs| - 1]);
      if ok then f(s', rs[|rs| - 1]) else (s', false)
  }

  lemma {:induction false} AcceptAllConcat<S, R>(f: Acceptor<S, R>, s: S, a: seq<R>, b: seq<R>)
    ensures AcceptAll(f, s, a + b) ==
            var (s', ok) := AcceptAll(f, s, a); if ok then AcceptAll(f, s', b) else (s', false)
  {
    if b == [] {
      assert a + b == a;
    } else {
      assert (a + b)[..|a + b| - 1] == a + b[..|b| - 1];
      AcceptAllConcat(f, s, a, b[..|b| - 1]);
    }
  }

  /** The step is accepted exactly when it is good, and then takes the state `done` of its place to that of the
      next. */
  predicate Settled<S(==), R, X>(f: Acceptor<S, R>, done: nat -> S, record: X -> R, good: nat -> bool,
                                 xs: seq<X>, n: nat)
    requires n < |xs|
  {
    var (s, ok) := f(done(n), record(xs[n]));
    ok == good(n) && (ok ==> s == done(n + 1))
  }

  ghost predicate AllGood(good: nat -> bool, n: nat) {
    forall i :: 0 <= i < n ==> good(i)
  }

  lemma {:induction false} AcceptWhile<S, R, X>(f: Acceptor<S, R>, done: nat -> S, record: X -> R, good: nat -> bool,
                                                xs: seq<X>)
    requires forall n :: 0 <= n < |xs| ==> Settled(f, done, record, good, xs, n)
    ensures var (s, ok) := AcceptAll(f, done(0), Map(record, xs));
      (ok <==> AllGood(good, |xs|)) && (ok ==> s == done(|xs|))
  {
    if xs != [] {
      var init := xs[..|xs| - 1];
      forall n | 0 <= n < |init| ensures Settled(f, done, record, good, init, n) {
        assert Settled(f, done, record, good, xs, n);
      }
      AcceptWhile(f, done, record, good, init);
      assert Map(record, xs)[..|xs| - 1] == Map(record, init);
      assert Settled(f, done, record, good, xs, |xs| - 1);
      assert AllGood(good, |xs|) <==> AllGood(good, |init|) && good(|init|);
    }
  }

  predicate EachAccepted<S(==), R, X>(f: Acceptor<S, R>, done: nat -> S, record: X -> R, xs: seq<X>, n: nat)
    requires n < |xs|
  {
    f(done(n), record(xs[n])) == (done(n + 1), true)
  }

  /** If each element is accepted and takes the state `done` of its place to that of the next, all are. */
  lemma {:induction false} AcceptEach<S, R, X>(f: Acceptor<S, R>, done: nat -> S, record: X -> R, xs: seq<X>)
    requires forall n :: 0 <= n < |xs| ==> EachAccepted(f, done, record, xs, n)
    ensures AcceptAll(f, done(0), Map(record, xs)) == (done(|xs|), true)
  {
    if xs != [] {
      var init := xs[..|xs| - 1];
      forall n | 0 <= n < |init| ensures EachAccepted(f, done, record, init, n) {
        assert EachAccepted(f, done, record, xs, n);
      }
      AcceptEach(f, done, record, init);
      assert Map(record, xs)[..|xs| - 1] == Map(record, init);
      assert EachAccepted(f, done, record, xs, |xs| - 1);
    }
  }

  lemma MapOneMore<A, B>(f: A -> seq<B>, s: seq<A>, x: A)
    ensures Flatten(Map(f, s + [x])) == Flatten(Map(f, s)) + f(x)
  {
    assert Map(f, s + [x])[..|s|] == Map(f, s);
  }

  predicate GroupAccepted<S(==), R, X>(f: Acceptor<S, R>, done: nat -> S, records: X -> seq<R>, xs: seq<X>, n: nat)
    requires n < |xs|
  {
    AcceptAll(f, done(n), records(xs[n])) == (done(n + 1), true)
  }

  /** The same for elements that each stand for several records. */
  lemma {:induction false} AcceptGroups<S, R, X>(f: Acceptor<S, R>, done: nat -> S, records: X -> seq<R>, xs: seq<X>)
    requires forall n :: 0 <= n < |xs| ==> GroupAccepted(f, done, records, xs, n)
    ensures AcceptAll(f, done(0), Flatten(Map(records, xs))) == (done(|xs|), true)
  {
    if xs != [] {
      var init, x := xs[..|xs| - 1], xs[|xs| - 1];
      forall n | 0 <= n < |init| ensures GroupAccepted(f, done, records, init, n) {
        assert GroupAccepted(f, done, records, xs, n);
      }
      AcceptGroups(f, done, records, init);
      assert xs == init + [x];
      MapOneMore(records, init, x);
      AcceptAllConcat(f, done(0), Flatten(Map(records, init)), records(x));
      assert GroupAccepted(f, done, records, xs, |xs| - 1);
    }
  }

  function AcceptorOf(env: Env): Acceptor<State, Record> {
    (s: State, r: Record) => Accept(env, s, r)
  }

  // -------------------------------------------------------- the records

  function ObjectRecords(os: seq<O.Object>): seq<Record> {
    Map(o => ObjectRecord(o), os)
  }

  function LinkRecords(ls: seq<L.Link>): seq<Record> {
    Map(l => LinkRecord(l), ls)
  }

  function EventRecords(es: seq<E.Event>): seq<Record> {
    Map(e => EventRecord(e), es)
  }

  function QueueRecords(js: seq<Q.Job>): seq<Record> {
    Map(j => QueueRecord(j), js)
  }

  lemma RecordsInParts(s: Store)
    ensures Records(s) == [Header(SNAPSHOT_VERSION)] + ObjectRecords(ExportedObjects(s))
                              + LinkRecords(Sort(L.ById, s.table.links))
                          + EventRecords(s.log.events) + QueueRecords(ExportedJobs(s))
  {
  }

  function AfterHeader(store: Store): State {
    State(store, true, Counts(0, 0, 0, 0, 0))
  }

  lemma HeaderAccepted(env: Env, store: Store)
    ensures AcceptAll(AcceptorOf(env), Start(store), [Header(SNAPSHOT_VERSION)]) == (AfterHeader(store), true)
  {
    assert [Header(SNAPSHOT_VERSION)][..0] == [];
  }

  // --------------------------------------------------- what an export contains

  predicate DiffKey(a: O.Object, b: O.Object) {
    a.key != b.key
  }

  /** The order of the export: by collection, and by id within a collection. */
  predicate KeyLess(a: O.Key, b: O.Key) {
    StrLess(a.collection, b.collection) || (a.collection == b.collection && StrLess(a.id, b.id))
  }

  predicate Before(a: O.Object, b: O.Object) {
    KeyLess(a.key, b.key)
  }

  lemma KeyLessIsStrict(k: O.Key)
    ensures !KeyLess(k, k)
  {
    StrCmpEqual(k.collection, k.collection);
    StrCmpEqual(k.id, k.id);
  }

  lemma ListedAt(objects: map<O.Key, O.Object>, c: string, i: nat)
    requires (forall k :: k in objects ==> objects[k].key == k) && i < |ListObjects(objects, c)|
    ensures var o, ids := ListObjects(objects, c)[i], Ascending(IdsIn(objects, c));
      i < |ids| && o.key == O.Key(c, ids[i]) && o.key in objects && objects[o.key] == o
  {
    IdStands(objects, c, Ascending(IdsIn(objects, c))[i]);
  }

  /** The objects `os` are those stored under the ids `ids` of the collection, place by place. */
  ghost predicate StoredUnder(objects: map<O.Key, O.Object>, c: string, ids: seq<string>, os: seq<O.Object>) {
    |os| == |ids| && forall i :: 0 <= i < |os| ==> StoredAt(objects, O.Key(c, ids[i]), os[i])
  }

  predicate StoredAt(objects: map<O.Key, O.Object>, k: O.Key, o: O.Object) {
    o.key == k && k in objects && objects[k] == o
  }

  lemma ListedByIds(objects: map<O.Key, O.Object>, c: string, ids: seq<string>, os: seq<O.Object>)
    requires Pairwise(StrLess, ids) && StoredUnder(objects, c, ids, os)
    requires forall k :: k in objects && k.collection == c ==> k.id in ids
    ensures Lists(objects, [c], os)
  {
    forall i, j | 0 <= i < j < |os| ensures Before(os[i], os[j]) {
      assert StoredAt(objects, O.Key(c, ids[i]), os[i]) && StoredAt(objects, O.Key(c, ids[j]), os[j]);
      assert StrLess(ids[i], ids[j]);
    }
    forall o ensures o in os <==> StoredIn(objects, [c], o) {
      if o in os {
        var i :| 0 <= i < |os| && os[i] == o;
        assert StoredAt(objects, O.Key(c, ids[i]), os[i]);
      }
      if StoredIn(objects, [c], o) {
        var i :| 0 <= i < |ids| && ids[i] == o.key.id;
        assert StoredAt(objects, O.Key(c, ids[i]), os[i]);
      }
    }
  }

  lemma ListObjectsFacts(objects: map<O.Key, O.Object>, c: string)
    requires forall k :: k in objects ==> objects[k].key == k
    ensures Lists(objects, [c], ListObjects(objects, c))
  {
    var ids, os := Ascending(IdsIn(objects, c)), ListObjects(objects, c);
    AscendingIsStrict(IdsIn(objects, c));
    forall i | 0 <= i < |os| ensures StoredAt(objects, O.Key(c, ids[i]), os[i]) {
      ListedAt(objects, c, i);
    }
    ListedByIds(objects, c, ids, os);
  }

  lemma JoinOrdered(a: seq<O.Object>, b: seq<O.Object>)
    requires Pairwise(Before, a) && Pairwise(Before, b)
    requires forall o, p :: o in a && p in b ==> Before(o, p)
    ensures Pairwise(Before, a + b)
  {
    forall i, j | 0 <= i < j < |a + b| ensures Before((a + b)[i], (a + b)[j]) {
      if i < |a| <= j {
        assert a[i] in a && b[j - |a|] in b;
      } else if j < |a| {
        assert Before(a[i], a[j]);
      } else {
        assert Before(b[i - |a|], b[j - |a|]);
      }
    }
  }

  /** An object stored in one of these collections. */
  predicate StoredIn(objects: map<O.Key, O.Object>, cs: seq<string>, o: O.Object) {
    o.key in objects && objects[o.key] == o && o.key.collection in cs
  }

  /** `os` are the objects of these collections, each once and in order. */
  ghost predicate Lists(objects: map<O.Key, O.Object>, cs: seq<string>, os: seq<O.Object>) {
    Pairwise(Before, os) && forall o :: o in os <==> StoredIn(objects, cs, o)
  }

  lemma ListsOneMore(objects: map<O.Key, O.Object>, cs: seq<string>, c: string, a: seq<O.Object>, b: seq<O.Object>)
    requires (forall x :: x in cs ==> StrLess(x, c)) && Lists(objects, cs, a) && Lists(objects, [c], b)
    ensures Lists(objects, cs + [c], a + b)
  {
    forall o, p | o in a && p in b ensures Before(o, p) {
      assert StoredIn(objects, cs, o) && StoredIn(objects, [c], p);
    }
    JoinOrdered(a, b);
    forall o ensures o in a + b <==> StoredIn(objects, cs + [c], o) {
      assert o in a <==> StoredIn(objects, cs, o);
      assert o in b <==> StoredIn(objects, [c], o);
    }
  }

  ghost predicate ListsFirst(objects: map<O.Key, O.Object>, cs: seq<string>, n: nat)
    requires n <= |cs|
  {
    Lists(objects, cs[..n], AllObjects(objects, cs, n))
  }

  lemma ListsNone(objects: map<O.Key, O.Object>, cs: seq<string>)
    ensures ListsFirst(objects, cs, 0)
  {
  }

  lemma ListsNext(objects: map<O.Key, O.Object>, cs: seq<string>, n: nat)
    requires (forall k :: k in objects ==> objects[k].key == k) && Pairwise(StrLess, cs) && n < |cs|
    requires ListsFirst(objects, cs, n)
    ensures ListsFirst(objects, cs, n + 1)
  {
    var a, b := AllObjects(objects, cs, n), ListObjects(objects, cs[n]);
    ListObjectsFacts(objects, cs[n]);
    forall x | x in cs[..n] ensures StrLess(x, cs[n]) {
      var i :| 0 <= i < n && cs[i] == x;
    }
    ListsOneMore(objects, cs[..n], cs[n], a, b);
    assert cs[..n + 1] == cs[..n] + [cs[n]];
    assert AllObjects(objects, cs, n + 1) == a + b;
  }

  /** The export lists every object of these collections once and nothing else. */
  lemma {:induction false} AllObjectsFacts(objects: map<O.Key, O.Object>, cs: seq<string>, n: nat)
    requires (forall k :: k in objects ==> objects[k].key == k) && Pairwise(StrLess, cs) && n <= |cs|
    ensures ListsFirst(objects, cs, n)
  {
    if n == 0 {
      ListsNone(objects, cs);
    } else {
      AllObjectsFacts(objects, cs, n - 1);
      ListsNext(objects, cs, n - 1);
    }
  }

  /** The objects of the store, each once and in order. */
  ghost predicate ListsAll(objects: map<O.Key, O.Object>, os: seq<O.Object>) {
    Pairwise(Before, os) && forall o :: o in os <==> StoredAt(objects, o.key, o)
  }

  lemma KeysDiffer(os: seq<O.Object>)
    requires Pairwise(Before, os)
    ensures Pairwise(DiffKey, os)
  {
    forall i, j | 0 <= i < j < |os| ensures DiffKey(os[i], os[j]) {
      assert Before(os[i], os[j]);
      KeyLessIsStrict(os[i].key);
    }
  }

  lemma ListsEverything(objects: map<O.Key, O.Object>, cs: seq<string>, os: seq<O.Object>)
    requires Lists(objects, cs, os) && forall k :: k in objects ==> k.collection in cs
    ensures ListsAll(objects, os)
  {
    forall o ensures o in os <==> StoredAt(objects, o.key, o) {
      assert o in os <==> StoredIn(objects, cs, o);
    }
  }

  lemma ExportedObjectsFacts(parse: O.Parser, s: Store)
    requires O.ShelfOk(parse, s.shelf)
    ensures ListsAll(s.shelf.objects, ExportedObjects(s)) && forall o :: o in ExportedObjects(s) ==> o.createdAt != ""
  {
    var cs := Ascending(CollectionNames(s.shelf.objects));
    AscendingIsStrict(CollectionNames(s.shelf.objects));
    AllObjectsFacts(s.shelf.objects, cs, |cs|);
    assert cs[..|cs|] == cs;
    ListsEverything(s.shelf.objects, cs, ExportedObjects(s));
  }

  lemma ObjectCount(objects: map<O.Key, O.Object>, os: seq<O.Object>)
    requires ListsAll(objects, os) && forall k :: k in objects ==> objects[k].key == k
    ensures |os| == |objects|
  {
    var keys := set o | o in os :: o.key;
    forall k ensures k in keys <==> k in objects.Keys {
      if k in objects {
        assert StoredAt(objects, objects[k].key, objects[k]);
      }
      if o :| o in os && o.key == k {
        assert StoredAt(objects, o.key, o);
      }
    }
    assert keys == objects.Keys;
    KeysDiffer(os);
    KeyCount(os);
  }

  lemma {:induction false} KeyCount(os: seq<O.Object>)
    requires Pairwise(DiffKey, os)
    ensures |set o | o in os :: o.key| == |os|
  {
    if os != [] {
      var init, o := os[..|os| - 1], os[|os| - 1];
      KeyCount(init);
      assert os == init + [o];
      var before := set p | p in init :: p.key;
      assert o.key !in before by {
        forall i | 0 <= i < |init| ensures init[i].key != o.key {
          assert DiffKey(os[i], os[|os| - 1]);
        }
      }
      assert (set p | p in os :: p.key) == before + {o.key};
    }
  }

  lemma SortedLinks(table: L.Table)
    requires L.LinksOk(table)
    ensures var ls := Sort(L.ById, table.links);
      && Pairwise(L.DiffId, ls) && (forall l :: l in ls ==> l.id != "") && multiset(ls) == multiset(table.links)
  {
    StrLeqTotal();
    assert TotalPreorder(L.ById);
    SortPairwiseBoth(L.ById, L.DiffId, table.links);
    SortPermutes(L.ById, table.links);
  }

  lemma IdsDiffer(links: seq<L.Link>, i: nat, j: nat)
    requires Pairwise(L.DiffId, links) && i < |links| && j < |links|
    ensures i != j ==> links[i].id != links[j].id
  {
    if i < j {
      assert L.DiffId(links[i], links[j]);
    } else if j < i {
      assert L.DiffId(links[j], links[i]);
    }
  }

  ghost predicate OneKeyEach(es: seq<E.Event>) {
    forall i, j :: 0 <= i < j < |es| && es[i].key != "" ==> E.KeyOf(es[i]) != E.KeyOf(es[j])
  }

  lemma {:induction false} EventCount(log: E.Log, n: nat)
    requires E.LogOk(log) && n < |log.events|
    ensures log.events[n].sequence >= n + 1
  {
    assert log.events[n] in log.events;
    if n > 0 {
      EventCount(log, n - 1);
      assert E.Earlier(log.events[n - 1], log.events[n]);
    }
  }

  lemma EventsFit(log: E.Log)
    requires E.LogOk(log)
    ensures |log.events| <= log.next && OneKeyEach(log.events)
  {
    if log.events != [] {
      EventCount(log, |log.events| - 1);
      assert log.events[|log.events| - 1] in log.events;
    }
    forall i, j | 0 <= i < j < |log.events| && log.events[i].key != ""
      ensures E.KeyOf(log.events[i]) != E.KeyOf(log.events[j])
    {
      assert E.Earlier(log.events[i], log.events[j]);
      assert log.events[i] in log.events && log.events[j] in log.events;
    }
  }

  lemma ListedInQueue(queues: Q.Queues, name: string)
    requires QueuesOk(queues) && name in queues
    ensures ListedJobs(queues, name) != [] && forall j :: j in ListedJobs(queues, name) ==> j.queue == name
  {
  }

  lemma NewName(names: seq<string>, n: nat)
    requires n < |names| && Pairwise(StrLess, names)
    ensures names[n] !in names[..n]
  {
    forall i | 0 <= i < n ensures names[i] != names[n] {
      assert StrLess(names[i], names[n]);
      StrCmpEqual(names[i], names[n]);
    }
  }

  ghost predicate RecordsAgree(queues: Q.Queues, records: string -> seq<Record>, names: seq<string>, n: nat)
    requires n <= |names|
  {
    QueueRecords(AllJobs(queues, names, n)) == Flatten(Map(records, names[..n]))
  }

  lemma JobsOneMore(queues: Q.Queues, names: seq<string>, n: nat)
    requires n < |names|
    ensures AllJobs(queues, names, n + 1) == AllJobs(queues, names, n) + ListedJobs(queues, names[n])
  {
  }

  lemma FlatOneMore(records: string -> seq<Record>, names: seq<string>, n: nat)
    requires n < |names|
    ensures Flatten(Map(records, names[..n + 1])) == Flatten(Map(records, names[..n])) + records(names[n])
  {
    MapOneMore(records, names[..n], names[n]);
    assert names[..n + 1] == names[..n] + [names[n]];
  }

  lemma RecordsConcat(a: seq<Q.Job>, b: seq<Q.Job>)
    ensures QueueRecords(a + b) == QueueRecords(a) + QueueRecords(b)
  {
  }

  lemma NextRecords(queues: Q.Queues, records: string -> seq<Record>, names: seq<string>, n: nat)
    requires n < |names| && records(names[n]) == QueueRecords(ListedJobs(queues, names[n]))
    requires RecordsAgree(queues, records, names, n)
    ensures RecordsAgree(queues, records, names, n + 1)
  {
    JobsOneMore(queues, names, n);
    FlatOneMore(records, names, n);
    RecordsConcat(AllJobs(queues, names, n), ListedJobs(queues, names[n]));
  }

  lemma {:induction false} RecordsOfAll(queues: Q.Queues, records: string -> seq<Record>, names: seq<string>, n: nat)
    requires n <= |names| && forall name :: records(name) == QueueRecords(ListedJobs(queues, name))
    ensures RecordsAgree(queues, records, names, n)
  {
    if n > 0 {
      RecordsOfAll(queues, records, names, n - 1);
      NextRecords(queues, records, names, n - 1);
    }
  }

  /** The records after the header, in all and by type; a dead job counts twice. */
  function SnapshotCounts(s: Store): Counts {
    Counts(|Records(s)| - 1, |s.shelf.objects|, |s.log.events|, |s.table.links|, |ExportedJobs(s)|)
  }

  // --------------------------------------------------- the written snapshot

  type Encoder = Record -> Bytes

  /** Reading a written record gives it back, and a written record has no newline and is not blank, as for
      compact JSON. */
  ghost predicate Readable(env: Env, encode: Encoder, r: Record) {
    env.decode(encode(r)) == Some(r) && NEWLINE !in encode(r) && !IsBlank(encode(r))
  }

  ghost predicate Codec(env: Env, encode: Encoder, rs: seq<Record>) {
    forall r :: r in rs ==> Readable(env, encode, r)
  }

  /** Whatever the records, there is such a codec: here, the n-th record as n times the letter a. */
  lemma CodecExists(rs: seq<Record>, parse: O.Parser, clock: nat -> string) returns (env: Env, encode: Encoder)
    ensures env.parse == parse && env.clock == clock && Codec(env, encode, rs)
  {
    encode := (r: Record) => seq(Position(r, rs) + 1, _ => 97);
    env := Env(parse, (line: Bytes) => if 0 < |line| <= |rs| then Some(rs[|line| - 1]) else None, clock);
    forall r | r in rs ensures Readable(env, encode, r) {
      var i :| 0 <= i < |rs| && rs[i] == r;
      assert Position(r, rs) <= i;
      assert encode(r)[0] == 97 && !IsWhitespace(97);
    }
  }

  /** The exported body: each record on a line of its own. */
  function Body(encode: Encoder, s: Store): Bytes {
    Terminated(NEWLINE, Map(encode, Records(s)))
  }

  ghost predicate Fits(encode: Encoder, rs: seq<Record>) {
    forall r :: r in rs ==> |encode(r)| <= SNAPSHOT_MAX_LINE_BYTES
  }

  lemma LastLine(env: Env, encode: Encoder, s: State, init: seq<Record>, r: Record)
    requires Readable(env, encode, r)
    ensures Lines(HandlerOf(env), s, Map(encode, init + [r])) ==
            var (s1, ok) := Lines(HandlerOf(env), s, Map(encode, init));
            if !ok then (s1, false)
            else if |encode(r)| > SNAPSHOT_MAX_LINE_BYTES then (s1, false)
            else Accept(env, s1, r)
  {
    var h, s1 := HandlerOf(env), Lines(HandlerOf(env), s, Map(encode, init)).0;
    assert Map(encode, init + [r]) == Map(encode, init) + [encode(r)];
    LinesConcat(h, s, Map(encode, init), [encode(r)]);
    OneLine(h, s1, encode(r));
    assert h(s1, encode(r)) == Handle(env, s1, encode(r));
  }

  lemma OneLine<S>(h: Handler<S>, s: S, line: Bytes)
    requires !IsBlank(line)
    ensures Lines(h, s, [line]) == if |line| > SNAPSHOT_MAX_LINE_BYTES then (s, false) else h(s, line)
  {
    assert [line][1..] == [];
  }

  /** Written lines are accepted as their records, up to the first one that is too long. */
  lemma {:induction false} EncodedLines(env: Env, encode: Encoder, s: State, rs: seq<Record>)
    requires Codec(env, encode, rs)
    ensures Fits(encode, rs) ==> Lines(HandlerOf(env), s, Map(encode, rs)) == AcceptAll(AcceptorOf(env), s, rs)
    ensures !Fits(encode, rs) ==> !Lines(HandlerOf(env), s, Map(encode, rs)).1
  {
    if rs != [] {
      var init, r := rs[..|rs| - 1], rs[|rs| - 1];
      assert rs == init + [r];
      EncodedLines(env, encode, s, init);
      LastLine(env, encode, s, init, r);
    }
  }

  lemma BodyLines(env: Env, encode: Encoder, rs: seq<Record>)
    requires Codec(env, encode, rs)
    ensures var body := Terminated(NEWLINE, Map(encode, rs));
      Complete(body) == Map(encode, rs) && Tail(body) == [] && NoLongBlank(body)
  {
    var lines := Map(encode, rs);
    var body := Terminated(NEWLINE, lines);
    forall i | 0 <= i < |lines| ensures NEWLINE !in lines[i] && !IsBlank(lines[i]) {
      assert rs[i] in rs && Readable(env, encode, rs[i]);
    }
    OnlyTerminated(lines);
    var parts := Split(NEWLINE, body);
    assert parts == Complete(body) + [Tail(body)];
  }
}
