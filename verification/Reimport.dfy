/** Importing a snapshot over the store it was exported from. */
module Reimport {
  import opened Prelude
  import opened Ordering
  import opened Framing
  import opened Stores
  import opened SnapshotImport
  import opened SnapshotExport
  import opened Snapshots
  import opened ObjectMerge
  import opened Merge
  import O = Objects
  import E = EventLog
  import L = Links
  import Q = Queue

  // ---------------------------------------------------------------- objects

  /** The same object, written once more. */
  predicate Rewritten(o: O.Object, p: O.Object) {
    p == o.(version := Increment(o.version), updatedAt := p.updatedAt)
  }

  /** Every object written once more, and the vectors of the objects back in the vector table. */
  ghost predicate ShelfAgain(s: O.Shelf, t: O.Shelf) {
    && t.indexes == s.indexes && t.objects.Keys == s.objects.Keys
    && (forall k :: k in s.objects ==> Rewritten(s.objects[k], t.objects[k]))
    && (forall k :: VectorOf(t.vectors, k) == if k in s.objects then s.objects[k].vector else VectorOf(s.vectors, k))
  }

  lemma ShelfIsAgain(s: O.Shelf, t: O.Shelf)
    requires ShelfMerged(s, s, t)
    ensures ShelfAgain(s, t)
  {
    forall k ensures k in t.objects <==> k in s.objects {
      if k !in s.objects {
        assert ObjectAt(t, k) == ObjectAt(s, k);
      }
    }
  }

  /** A unique index that holds does not block an object from its own place. */
  lemma ObjectsFitAgain(parse: O.Parser, s: O.Shelf)
    requires O.ShelfOk(parse, s)
    ensures ObjectsFit(parse, s.objects, s)
  {
    forall ix | ix in s.indexes ensures FitsIndex(parse, s.objects, s.objects, s.indexes[ix]) {
      forall a, b | a in s.objects && b in s.objects
        ensures !O.Blocks(parse, s.objects[a], s.indexes[ix], b, s.objects[b])
      {
        assert s.indexes[ix].unique ==> O.FieldIsUnique(parse, s.objects, ix.0, ix.1);
      }
    }
  }

  // ------------------------------------------------------- links and queues

  lemma LinkIsThere(t: L.Table, l: L.Link)
    requires Pairwise(L.DiffId, t.links) && l in t.links
    ensures L.Get(t, l.id) == Some(l)
  {
    var i :| 0 <= i < |t.links| && t.links[i] == l;
    IdsDiffer(t.links, i, L.IndexOf(t.links, l.id));
  }

  lemma LinksFitAgain(t: L.Table)
    requires L.LinksOk(t)
    ensures LinksFit(t, t.links)
  {
    forall l | l in t.links ensures LinkFits(t, l) {
      LinkIsThere(t, l);
    }
  }

  lemma LinksAgain(s: L.Table, t: L.Table)
    requires L.LinksOk(s) && LinksMerged(s, Sort(L.ById, s.links), t)
    ensures t == s
  {
    var ls := Sort(L.ById, s.links);
    SortPermutes(L.ById, s.links);
    forall l | l in ls ensures !IsNew(s, l) {
      assert l in multiset(ls);
      LinkIsThere(s, l);
    }
    FilterNone((l: L.Link) => IsNew(s, l), ls);
    assert s.links + [] == s.links;
  }

  lemma QueuesAgain(queues: Q.Queues)
    ensures MergedQueues(queues, queues) == queues
  {
    forall name | name in queues ensures MergedJobs(queues, queues, name) == queues[name] {
      var q := queues[name];
      forall j | j in q ensures Q.Find(q, j.id).Some? {
        var i :| 0 <= i < |q| && q[i] == j;
        assert Q.IndexOf(q, j.id) <= i;
      }
      FilterNone((j: Q.Job) => Q.Find(q, j.id).None?, q);
      assert q + [] == q;
    }
  }

  // ----------------------------------------------------------------- events

  /** The events without an idempotency key. */
  function Unkeyed(es: seq<E.Event>): (us: seq<E.Event>)
    ensures |us| <= |es|
  {
    Filter((e: E.Event) => e.key == "", es)
  }

  lemma NoneUnkeyed(es: seq<E.Event>)
    ensures Unkeyed(es) == [] <==> forall e :: e in es ==> e.key != ""
  {
    if e :| e in es && e.key == "" {
      assert e in Unkeyed(es);
    } else {
      FilterNone((e: E.Event) => e.key == "", es);
    }
  }

  /** The log with these events appended under new sequences. */
  function WithCopies(log: E.Log, us: seq<E.Event>): E.Log
    requires log.next + |us| <= U64_MAX
  {
    E.Log(log.events + Copies(log.next, us), log.next + |us|, log.keys)
  }

  lemma {:induction false} FilterAgree<T(!new)>(p: T -> bool, q: T -> bool, s: seq<T>)
    requires forall x :: x in s ==> p(x) == q(x)
    ensures Filter(p, s) == Filter(q, s)
  {
    if s != [] {
      assert s[|s| - 1] in s && forall x :: x in s[..|s| - 1] ==> x in s;
      FilterAgree(p, q, s[..|s| - 1]);
    }
  }

  lemma KeyedIsKnown(log: E.Log, e: E.Event)
    requires E.LogOk(log) && e in log.events
    ensures E.Known(log, e).None? <==> e.key == ""
  {
    if e.key != "" {
      var i :| 0 <= i < |log.events| && log.events[i] == e;
      assert E.IndexOfSequence(log.events, e.sequence) <= i;
    }
  }

  lemma UnknownIsUnkeyed(log: E.Log, n: nat)
    requires E.LogOk(log) && n <= |log.events|
    ensures Unknown(log, log.events[..n]) == Unkeyed(log.events[..n])
  {
    forall e | e in log.events[..n] ensures E.Known(log, e).None? <==> e.key == "" {
      KeyedIsKnown(log, e);
    }
    FilterAgree((e: E.Event) => E.Known(log, e).None?, (e: E.Event) => e.key == "", log.events[..n]);
  }

  lemma {:induction false} NoNewKeys(keys: map<(string, string), u64>, next: u64, us: seq<E.Event>)
    requires next + |us| <= U64_MAX && forall e :: e in us ==> e.key == ""
    ensures KeysWith(keys, next, us) == keys
  {
    if us != [] {
      assert us[|us| - 1] in us;
      NoNewKeys(keys, next, us[..|us| - 1]);
    }
  }

  /** Appending the log's own events again adds the unkeyed ones once more and nothing else. */
  lemma AppendedAgain(log: E.Log, n: nat, clock: nat -> string)
    requires E.LogOk(log) && EventsStamped(log) && n <= |log.events|
    requires log.next + |Unkeyed(log.events[..n])| <= U64_MAX
    ensures E.AppendAll(log, log.events[..n], clock).0 == WithCopies(log, Unkeyed(log.events[..n]))
  {
    EventsFit(log);
    UnknownIsUnkeyed(log, n);
    NewAppended(log, log.events[..n], clock);
    NoNewKeys(log.keys, log.next, Unkeyed(log.events[..n]));
  }

  lemma LogAgain(log: E.Log)
    requires E.LogOk(log) && log.next + |Unkeyed(log.events)| <= U64_MAX
    ensures Unknown(log, log.events) == Unkeyed(log.events)
    ensures WithNew(log, Unkeyed(log.events)) == WithCopies(log, Unkeyed(log.events))
  {
    UnknownIsUnkeyed(log, |log.events|);
    assert log.events[..|log.events|] == log.events;
    NoNewKeys(log.keys, log.next, Unkeyed(log.events));
  }

  lemma LogIsTheSame(log: E.Log)
    requires log.next + |Unkeyed(log.events)| <= U64_MAX
    ensures WithCopies(log, Unkeyed(log.events)) == log <==> forall e :: e in log.events ==> e.key != ""
  {
    var us := Unkeyed(log.events);
    NoneUnkeyed(log.events);
    assert |WithCopies(log, us).events| == |log.events| + |us|;
    assert us == [] ==> WithCopies(log, us).events == log.events;
  }

  // ------------------------------------------------------------- the theorem

  /** What is left of the store `s` after its own snapshot was imported over it. */
  ghost predicate Reimported(s: Store, t: Store)
    requires s.log.next + |Unkeyed(s.log.events)| <= U64_MAX
  {
    && t.queues == s.queues && t.table == s.table && ShelfAgain(s.shelf, t.shelf)
    && t.log == WithCopies(s.log, Unkeyed(s.log.events))
  }

  lemma TakesItself(parse: O.Parser, s: Store)
    requires StoreOk(parse, s) && s.log.next + |Unkeyed(s.log.events)| <= U64_MAX
    ensures HasRoomFor(s, s) && Compatible(parse, s, s)
  {
    LogAgain(s.log);
    ObjectsFitAgain(parse, s.shelf);
    LinksFitAgain(s.table);
  }

  lemma MergedIsReimported(s: Store, t: Store)
    requires E.LogOk(s.log) && L.LinksOk(s.table) && s.log.next + |Unkeyed(s.log.events)| <= U64_MAX
    requires HasRoomFor(s, s) && Merged(s, s, t)
    ensures Reimported(s, t)
  {
    ShelfIsAgain(s.shelf, t.shelf);
    LinksAgain(s.table, t.table);
    QueuesAgain(s.queues);
    LogAgain(s.log);
  }

  /** Importing a store's snapshot, cut into chunks in any way, over the store itself is accepted exactly when
      every written record is within the line limit, and then changes no queue, no link and no index, and of each
      object only the version, the update stamp and the vector in the vector table. Events are repeated unless
      they have an idempotency key: the log stays as it is exactly when every event in it has one. */
  lemma ReimportIsIdempotentIffKeyed(env: Env, encode: Encoder, s: Store, chunks: seq<Bytes>)
    requires StoreOk(env.parse, s) && s.log.next + |Unkeyed(s.log.events)| <= U64_MAX
    requires Codec(env, encode, Records(s)) && Flatten(chunks) == Body(encode, s)
    ensures var (t, ok) := Imported(env, s, chunks);
      && (ok <==> Fits(encode, Records(s)))
      && (ok ==> Reimported(s, t.store))
      && (ok ==> (t.store.log == s.log <==> forall e :: e in s.log.events ==> e.key != ""))
  {
    TakesItself(env.parse, s);
    SnapshotMerges(env, encode, s, s, chunks);
    LogIsTheSame(s.log);
    var (t, ok) := Imported(env, s, chunks);
    if ok {
      MergedIsReimported(s, t.store);
    }
  }
}
