/** Exporting a store and importing the snapshot into an empty one. */
module RoundTrip {
  import opened Prelude
  import opened Ordering
  import opened Framing
  import opened Stores
  import opened SnapshotImport
  import opened SnapshotExport
  import opened Snapshots
  import opened ObjectMerge
  import opened Merge
  import O = Objects
  import E = EventLog
  import L = Links
  import Q = Queue

  /** What an object is after the round trip: its version starts over and its update stamp is the import's. */
  function Restored(o: O.Object, now: string): O.Object {
    o.(version := 1, updatedAt := now)
  }

  /** The same keys, and each object as it was but for its version and update stamp; no indexes; and the
      vectors that the objects carry. */
  ghost predicate ShelfMatches(s: O.Shelf, t: O.Shelf) {
    && t.indexes == map[] && t.objects.Keys == s.objects.Keys && t.vectors.Keys <= t.objects.Keys
    && (forall k :: k in s.objects ==> t.objects[k] == Restored(s.objects[k], t.objects[k].updatedAt))
    && (forall k :: k in s.objects ==> VectorOf(t.vectors, k) == s.objects[k].vector)
  }

  /** The events in order, numbered from one. */
  function Renumbered(es: seq<E.Event>): (r: seq<E.Event>)
    requires |es| <= U64_MAX
    ensures |r| == |es|
  {
    seq(|es|, i requires 0 <= i < |es| => es[i].(sequence := i + 1))
  }

  ghost predicate EventsRestored(es: seq<E.Event>, log: E.Log)
    requires |es| <= U64_MAX
  {
    && log.events == Renumbered(es) && log.next == |es|
    && (forall i :: 0 <= i < |es| && es[i].key != "" ==>
          E.KeyOf(es[i]) in log.keys && log.keys[E.KeyOf(es[i])] == i + 1)
    && (forall k :: k in log.keys ==> exists i :: 0 <= i < |es| && es[i].key != "" && E.KeyOf(es[i]) == k)
  }

  /** How the restored store `t` relates to the exported store `s`. */
  ghost predicate Restores(s: Store, t: Store)
    requires |s.log.events| <= U64_MAX
  {
    && t.queues == s.queues
    && t.table.links == Sort(L.ById, s.table.links) && (forall id :: L.Get(t.table, id) == L.Get(s.table, id))
    && EventsRestored(s.log.events, t.log)
    && ShelfMatches(s.shelf, t.shelf)
  }

  // ------------------------------------------------------ part by part

  lemma ShelfRestored(s: O.Shelf, r: O.Shelf)
    requires ShelfMerged(s, O.EMPTY_SHELF, r)
    ensures ShelfMatches(s, r)
  {
    forall k ensures k in r.objects <==> k in s.objects
      ensures k in r.vectors ==> k in r.objects
    {
      if k !in s.objects {
        assert ObjectAt(r, k) == None && VectorOf(r.vectors, k) == None;
      }
    }
  }

  lemma QueuesRestored(s: Q.Queues)
    ensures MergedQueues(map[], s) == s
  {
    forall name | name in s ensures MergedJobs(map[], s, name) == s[name] {
      FilterAll((j: Q.Job) => Q.Find([], j.id).None?, s[name]);
    }
  }

  lemma SameLookup(a: L.Table, b: L.Table, id: string)
    requires Pairwise(L.DiffId, a.links) && Pairwise(L.DiffId, b.links) && multiset(a.links) == multiset(b.links)
    ensures L.Get(a, id) == L.Get(b, id)
  {
    var i, j := L.IndexOf(a.links, id), L.IndexOf(b.links, id);
    if i < |a.links| {
      assert a.links[i] in multiset(a.links);
      var k :| 0 <= k < |b.links| && b.links[k] == a.links[i];
      IdsDiffer(b.links, j, k);
    } else {
      forall l | l in b.links ensures l.id != id {
        assert l in multiset(b.links);
        assert l in multiset(a.links);
      }
    }
  }

  lemma LinksRestored(s: L.Table, r: L.Table)
    requires L.LinksOk(s) && L.LinksOk(r) && LinksMerged(L.EMPTY_TABLE, Sort(L.ById, s.links), r)
    ensures r.links == Sort(L.ById, s.links) && forall id :: L.Get(r, id) == L.Get(s, id)
  {
    FilterAll((l: L.Link) => IsNew(L.EMPTY_TABLE, l), Sort(L.ById, s.links));
    SortedLinks(s);
    forall id ensures L.Get(r, id) == L.Get(s, id) {
      SameLookup(r, s, id);
    }
  }

  /** Each key points at the place of its event. */
  ghost predicate KeysPoint(es: seq<E.Event>, keys: map<(string, string), u64>) {
    && (forall i :: 0 <= i < |es| && es[i].key != "" ==> E.KeyOf(es[i]) in keys && keys[E.KeyOf(es[i])] == i + 1)
    && (forall k :: k in keys ==> CarriesKey(es, k))
  }

  lemma KeysPointNext(init: seq<E.Event>, e: E.Event, keys: map<(string, string), u64>, next: u64)
    requires KeysPoint(init, keys) && OneKeyEach(init + [e]) && next == |init| + 1
    ensures KeysPoint(init + [e], if e.key == "" then keys else keys[E.KeyOf(e) := next])
  {
    var es := init + [e];
    var after := if e.key == "" then keys else keys[E.KeyOf(e) := next];
    assert es[|init|] == e && forall i :: 0 <= i < |init| ==> es[i] == init[i];
    forall k | k in after ensures CarriesKey(es, k) {
      if k in keys {
        var i :| 0 <= i < |init| && init[i].key != "" && E.KeyOf(init[i]) == k;
        assert es[i] == init[i];
      } else {
        assert E.KeyOf(es[|init|]) == k;
      }
    }
  }

  lemma {:induction false} KeysRestored(es: seq<E.Event>)
    requires |es| <= U64_MAX && OneKeyEach(es)
    ensures KeysPoint(es, KeysWith(map[], 0, es))
  {
    if es != [] {
      var init, e := es[..|es| - 1], es[|es| - 1];
      assert es == init + [e];
      KeysRestored(init);
      KeysPointNext(init, e, KeysWith(map[], 0, init), |es|);
    }
  }

  lemma NothingIsKnown(es: seq<E.Event>)
    ensures Unknown(E.EMPTY_LOG, es) == es
  {
    FilterAll((e: E.Event) => E.Known(E.EMPTY_LOG, e).None?, es);
  }

  lemma EventsAreRestored(es: seq<E.Event>)
    requires |es| <= U64_MAX && OneKeyEach(es)
    ensures EventsRestored(es, WithNew(E.EMPTY_LOG, es))
  {
    KeysRestored(es);
    assert [] + Copies(0, es) == Renumbered(es);
  }

  lemma EmptyTakesAll(parse: O.Parser, s: Store)
    requires StoreOk(parse, s)
    ensures StoreOk(parse, EMPTY_STORE) && HasRoomFor(s, EMPTY_STORE) && Compatible(parse, s, EMPTY_STORE)
  {
    EventsFit(s.log);
    NothingIsKnown(s.log.events);
  }

  lemma MergedRestores(s: Store, r: Store)
    requires E.LogOk(s.log) && L.LinksOk(s.table) && L.LinksOk(r.table)
    requires HasRoomFor(s, EMPTY_STORE) && Merged(s, EMPTY_STORE, r)
    ensures |s.log.events| <= U64_MAX && Restores(s, r)
  {
    ShelfRestored(s.shelf, r.shelf);
    QueuesRestored(s.queues);
    LinksRestored(s.table, r.table);
    EventsFit(s.log);
    NothingIsKnown(s.log.events);
    EventsAreRestored(s.log.events);
  }

  // ----------------------------------------------------------- the round trip

  /** Exporting a store and importing the body, cut into chunks in any way, into an empty engine is accepted
      exactly when every written record is within the line limit. It then gives back every queue, job for job
      and in order; every link, by id; every event, in order and numbered from one; and every object's key,
      body, vector and creation stamp, at version one. Dead jobs, written twice, come back once. */
  lemma SnapshotRoundTrip(env: Env, encode: Encoder, s: Store, chunks: seq<Bytes>)
    requires StoreOk(env.parse, s) && Codec(env, encode, Records(s)) && Flatten(chunks) == Body(encode, s)
    ensures var (t, ok) := Imported(env, EMPTY_STORE, chunks);
      && (ok <==> Fits(encode, Records(s)))
      && (ok ==> |s.log.events| <= U64_MAX && Restores(s, t.store) && StoreOk(env.parse, t.store))
      && (ok ==> t.counts == SnapshotCounts(s))
  {
    EmptyTakesAll(env.parse, s);
    SnapshotMerges(env, encode, s, EMPTY_STORE, chunks);
    var (t, ok) := Imported(env, EMPTY_STORE, chunks);
    if ok {
      MergedRestores(s, t.store);
    }
  }

  /** The vector table holds the vectors of the objects and nothing else. */
  ghost predicate VectorsAgree(s: O.Shelf) {
    && s.vectors.Keys <= s.objects.Keys
    && forall k :: k in s.objects ==> VectorOf(s.vectors, k) == s.objects[k].vector
  }

  /** The vector table itself survives exactly when it agrees with the vectors stored in the objects: vectors
      attached on their own are not exported. */
  lemma VectorsSurviveIff(s: Store, t: Store)
    requires |s.log.events| <= U64_MAX && Restores(s, t)
    ensures t.shelf.vectors == s.shelf.vectors <==> VectorsAgree(s.shelf)
  {
    if VectorsAgree(s.shelf) {
      forall k ensures VectorOf(t.shelf.vectors, k) == VectorOf(s.shelf.vectors, k) {
        if k !in s.shelf.objects {
          assert k !in t.shelf.vectors.Keys && k !in s.shelf.vectors.Keys;
        }
      }
      SameVectors(t.shelf.vectors, s.shelf.vectors);
    }
  }

  lemma SameVectors(a: map<O.Key, O.Vector>, b: map<O.Key, O.Vector>)
    requires forall k :: VectorOf(a, k) == VectorOf(b, k)
    ensures a == b
  {
    forall k ensures k in a <==> k in b {
      assert VectorOf(a, k) == VectorOf(b, k);
    }
    forall k | k in a ensures a[k] == b[k] {
      assert VectorOf(a, k) == VectorOf(b, k);
    }
  }
}
