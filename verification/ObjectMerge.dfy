/** Importing the objects of a snapshot over those of another store: which unique indexes let them in. */
module ObjectMerge {
  import opened Prelude
  import opened Ordering
  import opened Stores
  import opened SnapshotImport
  import opened SnapshotExport
  import opened Snapshots
  import Runs
  import O = Objects
  import J = Json

  // ---------------------------------------------------------------- objects

  function ObjectAt(s: O.Shelf, k: O.Key): Option<O.Object> {
    if k in s.objects then Some(s.objects[k]) else None
  }

  function VectorOf(vectors: map<O.Key, O.Vector>, key: O.Key): Option<O.Vector> {
    if key in vectors then Some(vectors[key]) else None
  }

  predicate HasKey(os: seq<O.Object>, k: O.Key) {
    exists i :: 0 <= i < |os| && os[i].key == k
  }

  lemma HasKeyOneMore(init: seq<O.Object>, o: O.Object, k: O.Key)
    ensures HasKey(init + [o], k) <==> HasKey(init, k) || k == o.key
  {
    var os := init + [o];
    assert os[|init|] == o && forall i :: 0 <= i < |init| ==> os[i] == init[i];
  }

  /** The shelf with one object put, unless an index blocks it. */
  function Over(s: O.Shelf, o: O.Object, now: string): O.Shelf {
    O.Shelf(s.objects[o.key := O.Stamp(s, o, now)], O.SetVector(s.vectors, o.key, o.vector), s.indexes)
  }

  function OverAll(s: O.Shelf, os: seq<O.Object>, clock: nat -> string): O.Shelf {
    if os == [] then s else Over(OverAll(s, os[..|os| - 1], clock), os[|os| - 1], clock(|os| - 1))
  }

  lemma {:induction false} OverElsewhere(s: O.Shelf, os: seq<O.Object>, clock: nat -> string, k: O.Key)
    requires !HasKey(os, k)
    ensures var r := OverAll(s, os, clock);
      ObjectAt(r, k) == ObjectAt(s, k) && VectorOf(r.vectors, k) == VectorOf(s.vectors, k)
  {
    if os != [] {
      assert os == os[..|os| - 1] + [os[|os| - 1]];
      HasKeyOneMore(os[..|os| - 1], os[|os| - 1], k);
      OverElsewhere(s, os[..|os| - 1], clock, k);
    }
  }

  lemma KeyIsNew(os: seq<O.Object>, n: nat)
    requires Pairwise(DiffKey, os) && n < |os|
    ensures !HasKey(os[..n], os[n].key)
  {
    forall i | 0 <= i < n ensures os[..n][i].key != os[n].key {
      assert DiffKey(os[i], os[n]);
    }
  }

  lemma {:induction false} OverThere(s: O.Shelf, os: seq<O.Object>, clock: nat -> string, i: nat)
    requires Pairwise(DiffKey, os) && i < |os|
    ensures var r := OverAll(s, os, clock);
      && ObjectAt(r, os[i].key) == Some(O.Stamp(s, os[i], clock(i))) && VectorOf(r.vectors, os[i].key) == os[i].vector
  {
    var init, o := os[..|os| - 1], os[|os| - 1];
    if i == |init| {
      KeyIsNew(os, i);
      OverElsewhere(s, init, clock, o.key);
    } else {
      OverThere(s, init, clock, i);
      assert DiffKey(os[i], os[|os| - 1]);
    }
  }

  lemma {:induction false} OverKeepsIndexes(s: O.Shelf, os: seq<O.Object>, clock: nat -> string)
    ensures OverAll(s, os, clock).indexes == s.indexes
  {
    if os != [] {
      OverKeepsIndexes(s, os[..|os| - 1], clock);
    }
  }

  // ------------------------------------------ what an index makes of them

  /** The index does not block the n-th object: neither those put before it nor those still in place. */
  ghost predicate SparedBy(parse: O.Parser, objects: map<O.Key, O.Object>, os: seq<O.Object>, n: nat, index: O.Index)
    requires n < |os|
  {
    && (forall m :: 0 <= m < n ==> !O.Blocks(parse, os[n], index, os[m].key, os[m]))
    && (forall k :: k in objects && !HasKey(os[..n], k) ==> !O.Blocks(parse, os[n], index, k, objects[k]))
  }

  ghost predicate Spared(parse: O.Parser, s: O.Shelf, os: seq<O.Object>, n: nat)
    requires n < |os|
  {
    forall ix :: ix in s.indexes ==> SparedBy(parse, s.objects, os, n, s.indexes[ix])
  }

  /** Only the body of a stored object matters to an index. */
  lemma BodyBlocks(parse: O.Parser, o: O.Object, index: O.Index, k: O.Key, a: O.Object, b: O.Object)
    requires a.body == b.body
    ensures O.Blocks(parse, o, index, k, a) == O.Blocks(parse, o, index, k, b)
  {
  }

  lemma SparedIsAdmitted(parse: O.Parser, s: O.Shelf, os: seq<O.Object>, clock: nat -> string, n: nat)
    requires Pairwise(DiffKey, os) && n < |os| && Spared(parse, s, os, n)
    ensures O.Admits(parse, OverAll(s, os[..n], clock), os[n])
  {
    var r := OverAll(s, os[..n], clock);
    OverKeepsIndexes(s, os[..n], clock);
    forall ix, k | ix in r.indexes && k in r.objects ensures !O.Blocks(parse, os[n], r.indexes[ix], k, r.objects[k]) {
      assert SparedBy(parse, s.objects, os, n, s.indexes[ix]);
      if HasKey(os[..n], k) {
        var m :| 0 <= m < n && os[..n][m].key == k;
        OverThere(s, os[..n], clock, m);
        BodyBlocks(parse, os[n], s.indexes[ix], k, os[m], r.objects[k]);
      } else {
        OverElsewhere(s, os[..n], clock, k);
      }
    }
  }

  lemma AdmittedIsSpared(parse: O.Parser, s: O.Shelf, os: seq<O.Object>, clock: nat -> string, n: nat)
    requires Pairwise(DiffKey, os) && n < |os| && O.Admits(parse, OverAll(s, os[..n], clock), os[n])
    ensures Spared(parse, s, os, n)
  {
    var r := OverAll(s, os[..n], clock);
    OverKeepsIndexes(s, os[..n], clock);
    forall ix | ix in s.indexes ensures SparedBy(parse, s.objects, os, n, s.indexes[ix]) {
      forall m | 0 <= m < n ensures !O.Blocks(parse, os[n], s.indexes[ix], os[m].key, os[m]) {
        OverThere(s, os[..n], clock, m);
        BodyBlocks(parse, os[n], s.indexes[ix], os[m].key, os[m], r.objects[os[m].key]);
      }
      forall k | k in s.objects && !HasKey(os[..n], k) ensures !O.Blocks(parse, os[n], s.indexes[ix], k, s.objects[k]) {
        OverElsewhere(s, os[..n], clock, k);
      }
    }
  }

  /** The index lets the objects `from` into the place of `into`: no two of them share an indexed value, and none of
      them shares one with an object in place under another key, unless that one has been replaced by then. */
  ghost predicate FitsIndex(parse: O.Parser, from: map<O.Key, O.Object>, into: map<O.Key, O.Object>, index: O.Index) {
    && (forall a, b :: a in from && b in from ==> !O.Blocks(parse, from[a], index, b, from[b]))
    && (forall a, b :: a in from && b in into && !(b in from && KeyLess(b, a)) ==>
          !O.Blocks(parse, from[a], index, b, into[b]))
  }

  /** No unique index of the target blocks an object of the snapshot. */
  ghost predicate ObjectsFit(parse: O.Parser, from: map<O.Key, O.Object>, t: O.Shelf) {
    forall ix :: ix in t.indexes ==> FitsIndex(parse, from, t.objects, t.indexes[ix])
  }

  ghost predicate Keyed(objects: map<O.Key, O.Object>) {
    forall k :: k in objects ==> objects[k].key == k
  }

  lemma Place(from: map<O.Key, O.Object>, os: seq<O.Object>, k: O.Key) returns (i: nat)
    requires ListsAll(from, os) && Keyed(from) && k in from
    ensures i < |os| && os[i] == from[k]
  {
    assert StoredAt(from, from[k].key, from[k]);
    i :| 0 <= i < |os| && os[i] == from[k];
  }

  lemma PlacedAt(from: map<O.Key, O.Object>, os: seq<O.Object>, n: nat)
    requires ListsAll(from, os) && n < |os|
    ensures os[n].key in from && from[os[n].key] == os[n]
  {
    assert os[n] in os && StoredAt(from, os[n].key, os[n]);
  }

  /** Objects come before the n-th exactly when their keys do. */
  lemma BeforeInOrder(os: seq<O.Object>, m: nat, n: nat)
    requires Pairwise(Before, os) && m < |os| && n < |os|
    ensures m < n <==> KeyLess(os[m].key, os[n].key)
  {
    if m < n {
      assert Before(os[m], os[n]);
    } else if m == n {
      KeyLessIsStrict(os[m].key);
    } else {
      assert Before(os[n], os[m]);
      KeyLessFlips(os[n].key, os[m].key);
    }
  }

  lemma ReplacedBefore(from: map<O.Key, O.Object>, os: seq<O.Object>, n: nat, k: O.Key)
    requires ListsAll(from, os) && Keyed(from) && n < |os|
    ensures HasKey(os[..n], k) <==> k in from && KeyLess(k, os[n].key)
  {
    if HasKey(os[..n], k) {
      var m :| 0 <= m < n && os[..n][m].key == k;
      PlacedAt(from, os, m);
      BeforeInOrder(os, m, n);
    }
    if k in from && KeyLess(k, os[n].key) {
      var m := Place(from, os, k);
      BeforeInOrder(os, m, n);
      assert os[..n][m].key == k;
    }
  }

  lemma KeyLessFlips(a: O.Key, b: O.Key)
    requires KeyLess(a, b)
    ensures !KeyLess(b, a)
  {
    StrCmpFlip(a.collection, b.collection);
    StrCmpFlip(a.id, b.id);
    StrCmpEqual(a.collection, a.collection);
  }

  lemma BlocksBothWays(parse: O.Parser, a: O.Object, b: O.Object, index: O.Index)
    ensures O.Blocks(parse, a, index, b.key, b) == O.Blocks(parse, b, index, a.key, a)
  {
    O.ClashSymmetric(parse, a, b, index.field);
  }

  lemma FitIsSpared(parse: O.Parser, from: map<O.Key, O.Object>, os: seq<O.Object>, into: map<O.Key, O.Object>,
                    index: O.Index, n: nat)
    requires ListsAll(from, os) && Keyed(from) && n < |os| && FitsIndex(parse, from, into, index)
    ensures SparedBy(parse, into, os, n, index)
  {
    PlacedAt(from, os, n);
    forall m | 0 <= m < n ensures !O.Blocks(parse, os[n], index, os[m].key, os[m]) {
      PlacedAt(from, os, m);
    }
    forall k | k in into && !HasKey(os[..n], k) ensures !O.Blocks(parse, os[n], index, k, into[k]) {
      ReplacedBefore(from, os, n, k);
    }
  }

  lemma SparedTwoFit(parse: O.Parser, from: map<O.Key, O.Object>, os: seq<O.Object>, into: map<O.Key, O.Object>,
                     index: O.Index, a: O.Key, b: O.Key)
    requires ListsAll(from, os) && Keyed(from) && a in from && b in from
    requires forall n :: 0 <= n < |os| ==> SparedBy(parse, into, os, n, index)
    ensures !O.Blocks(parse, from[a], index, b, from[b])
  {
    var i := Place(from, os, a);
    var j := Place(from, os, b);
    BlocksBothWays(parse, os[i], os[j], index);
    assert SparedBy(parse, into, os, i, index) && SparedBy(parse, into, os, j, index);
    assert i == j ==> a == b;
  }

  lemma SparedOneFits(parse: O.Parser, from: map<O.Key, O.Object>, os: seq<O.Object>, into: map<O.Key, O.Object>,
                      index: O.Index, a: O.Key, b: O.Key)
    requires ListsAll(from, os) && Keyed(from) && a in from && b in into && !(b in from && KeyLess(b, a))
    requires forall n :: 0 <= n < |os| ==> SparedBy(parse, into, os, n, index)
    ensures !O.Blocks(parse, from[a], index, b, into[b])
  {
    var n := Place(from, os, a);
    assert SparedBy(parse, into, os, n, index);
    ReplacedBefore(from, os, n, b);
  }

  lemma AllSparedFit(parse: O.Parser, from: map<O.Key, O.Object>, os: seq<O.Object>, into: map<O.Key, O.Object>,
                     index: O.Index)
    requires ListsAll(from, os) && Keyed(from) && forall n :: 0 <= n < |os| ==> SparedBy(parse, into, os, n, index)
    ensures FitsIndex(parse, from, into, index)
  {
    forall a, b | a in from && b in from ensures !O.Blocks(parse, from[a], index, b, from[b]) {
      SparedTwoFit(parse, from, os, into, index, a, b);
    }
    forall a, b | a in from && b in into && !(b in from && KeyLess(b, a))
      ensures !O.Blocks(parse, from[a], index, b, into[b])
    {
      SparedOneFits(parse, from, os, into, index, a, b);
    }
  }

  /** Two stored objects with different values of a unique field, and a snapshot in which they have each other's: both
      satisfy the index, and so would the merged store, but the first one is blocked by the second in its old place. */
  lemma SwapIsBlocked(parse: O.Parser, a: O.Object, b: O.Object, field: string)
    requires KeyLess(a.key, b.key) && a.key.collection == b.key.collection && !O.Clash(parse, a, b, field)
    requires O.Indexed(parse, a, field).Some? && O.Indexed(parse, b, field).Some?
    ensures var c := a.key.collection;
      var t := O.Shelf(map[a.key := a, b.key := b], map[], map[(c, field) := O.Index(c, field, true)]);
      var from := map[a.key := a.(body := b.body), b.key := b.(body := a.body)];
      && O.FieldIsUnique(parse, t.objects, c, field) && O.FieldIsUnique(parse, from, c, field)
      && !ObjectsFit(parse, from, t)
  {
    var c := a.key.collection;
    var t := O.Shelf(map[a.key := a, b.key := b], map[], map[(c, field) := O.Index(c, field, true)]);
    var from := map[a.key := a.(body := b.body), b.key := b.(body := a.body)];
    KeyLessIsStrict(a.key);
    KeyLessFlips(a.key, b.key);
    O.ClashSymmetric(parse, a, b, field);
    J.JsonEqReflexive(O.Indexed(parse, b, field).value);
    assert O.Blocks(parse, from[a.key], t.indexes[(c, field)], b.key, t.objects[b.key]);
    assert !FitsIndex(parse, from, t.objects, t.indexes[(c, field)]);
  }

  function Admitted(parse: O.Parser, t: O.Shelf, os: seq<O.Object>, clock: nat -> string): nat -> bool {
    (n: nat) => n < |os| && O.Admits(parse, OverAll(t, os[..n], clock), os[n])
  }

  /** The objects are put one after the other without being blocked exactly when they fit every index. */
  lemma AllAdmittedIff(parse: O.Parser, from: map<O.Key, O.Object>, os: seq<O.Object>, t: O.Shelf,
                       clock: nat -> string)
    requires ListsAll(from, os) && Keyed(from)
    ensures AllGood(Admitted(parse, t, os, clock), |os|) <==> ObjectsFit(parse, from, t)
  {
    var good := Admitted(parse, t, os, clock);
    KeysDiffer(os);
    if AllGood(good, |os|) {
      forall n | 0 <= n < |os| ensures Spared(parse, t, os, n) {
        assert good(n);
        AdmittedIsSpared(parse, t, os, clock, n);
      }
      SparedFits(parse, from, os, t);
    }
    if ObjectsFit(parse, from, t) {
      forall n | 0 <= n < |os| ensures good(n) {
        FitsSpares(parse, from, os, t, n);
        SparedIsAdmitted(parse, t, os, clock, n);
      }
    }
  }

  lemma SparedFits(parse: O.Parser, from: map<O.Key, O.Object>, os: seq<O.Object>, t: O.Shelf)
    requires ListsAll(from, os) && Keyed(from) && forall n :: 0 <= n < |os| ==> Spared(parse, t, os, n)
    ensures ObjectsFit(parse, from, t)
  {
    forall ix | ix in t.indexes ensures FitsIndex(parse, from, t.objects, t.indexes[ix]) {
      forall n | 0 <= n < |os| ensures SparedBy(parse, t.objects, os, n, t.indexes[ix]) {
        assert Spared(parse, t, os, n);
      }
      AllSparedFit(parse, from, os, t.objects, t.indexes[ix]);
    }
  }

  lemma FitsSpares(parse: O.Parser, from: map<O.Key, O.Object>, os: seq<O.Object>, t: O.Shelf, n: nat)
    requires ListsAll(from, os) && Keyed(from) && ObjectsFit(parse, from, t) && n < |os|
    ensures Spared(parse, t, os, n)
  {
    forall ix | ix in t.indexes ensures SparedBy(parse, t.objects, os, n, t.indexes[ix]) {
      FitIsSpared(parse, from, os, t.objects, t.indexes[ix], n);
    }
  }

  /** State `s` with another shelf and `n` object records counted. */
  function ShelfDone(s: State, shelf: O.Shelf, n: nat): State {
    State(s.store.(shelf := shelf), true, s.counts.(records := s.counts.records + n, objects := s.counts.objects + n))
  }

  function Later(clock: nat -> string, first: nat): nat -> string {
    (i: nat) => clock(first + i)
  }

  lemma AcceptObject(env: Env, s: State, shelf: O.Shelf, n: nat, o: O.Object, admitted: bool)
    requires admitted == O.Admits(env.parse, shelf, o)
    ensures var (s', ok) := Accept(env, ShelfDone(s, shelf, n), ObjectRecord(o));
      ok == admitted && (ok ==> s' == ShelfDone(s, Over(shelf, o, env.clock(s.counts.records + n)), n + 1))
  {
  }

  lemma OverNext(t: O.Shelf, os: seq<O.Object>, clock: nat -> string, n: nat)
    requires n < |os|
    ensures OverAll(t, os[..n + 1], clock) == Over(OverAll(t, os[..n], clock), os[n], clock(n))
  {
    assert os[..n + 1][..n] == os[..n];
  }

  /** The n-th object is put on the n-th shelf, unless an index blocks it. */
  predicate PutStep(parse: O.Parser, os: seq<O.Object>, clock: nat -> string, shelves: nat -> O.Shelf,
                    good: nat -> bool, n: nat)
    requires n < |os|
  {
    good(n) == O.Admits(parse, shelves(n), os[n]) && shelves(n + 1) == Over(shelves(n), os[n], clock(n))
  }

  lemma PutSettles(env: Env, t: State, os: seq<O.Object>, shelves: nat -> O.Shelf, good: nat -> bool,
                   done: nat -> State, record: O.Object -> Record, n: nat)
    requires n < |os| && PutStep(env.parse, os, Later(env.clock, t.counts.records), shelves, good, n)
    requires done(n) == ShelfDone(t, shelves(n), n) && done(n + 1) == ShelfDone(t, shelves(n + 1), n + 1)
    requires record(os[n]) == ObjectRecord(os[n])
    ensures Settled(AcceptorOf(env), done, record, good, os, n)
  {
    AcceptObject(env, t, shelves(n), n, os[n], good(n));
  }

  lemma PutInOrder(env: Env, t: State, os: seq<O.Object>, shelves: nat -> O.Shelf, good: nat -> bool)
    requires t.headerSeen && shelves(0) == t.store.shelf
    requires forall n :: 0 <= n < |os| ==>
      PutStep(env.parse, os, Later(env.clock, t.counts.records), shelves, good, n)
    ensures var (r, ok) := AcceptAll(AcceptorOf(env), t, ObjectRecords(os));
      (ok <==> AllGood(good, |os|)) && (ok ==> r == ShelfDone(t, shelves(|os|), |os|))
  {
    var done := (n: nat) => ShelfDone(t, shelves(n), n);
    var record := (o: O.Object) => ObjectRecord(o);
    forall n | 0 <= n < |os| ensures Settled(AcceptorOf(env), done, record, good, os, n) {
      PutSettles(env, t, os, shelves, good, done, record, n);
    }
    AcceptWhile(AcceptorOf(env), done, record, good, os);
  }

  function Shelves(t: O.Shelf, os: seq<O.Object>, clock: nat -> string): nat -> O.Shelf {
    (n: nat) => OverAll(t, if n <= |os| then os[..n] else os, clock)
  }

  lemma ShelvesStep(parse: O.Parser, t: O.Shelf, os: seq<O.Object>, clock: nat -> string, n: nat)
    requires n < |os|
    ensures PutStep(parse, os, clock, Shelves(t, os, clock), Admitted(parse, t, os, clock), n)
  {
    OverNext(t, os, clock, n);
  }

  lemma ObjectsPhase(env: Env, t: State, from: map<O.Key, O.Object>, os: seq<O.Object>)
    requires t.headerSeen && ListsAll(from, os) && Keyed(from)
    ensures var (r, ok) := AcceptAll(AcceptorOf(env), t, ObjectRecords(os));
      && (ok <==> ObjectsFit(env.parse, from, t.store.shelf))
      && (ok ==> r == ShelfDone(t, OverAll(t.store.shelf, os, Later(env.clock, t.counts.records)), |os|))
  {
    var clock := Later(env.clock, t.counts.records);
    var shelves, good := Shelves(t.store.shelf, os, clock), Admitted(env.parse, t.store.shelf, os, clock);
    forall n | 0 <= n < |os| ensures PutStep(env.parse, os, clock, shelves, good, n) {
      ShelvesStep(env.parse, t.store.shelf, os, clock, n);
    }
    assert os[..0] == [] && os[..|os|] == os;
    PutInOrder(env, t, os, shelves, good);
    AllAdmittedIff(env.parse, from, os, t.store.shelf, clock);
  }

  lemma OverKeeps(parse: O.Parser, s: O.Shelf, o: O.Object, now: string)
    requires O.ShelfOk(parse, s) && O.Admits(parse, s, o) && o.createdAt != ""
    ensures O.ShelfOk(parse, Over(s, o, now))
  {
    O.PutKeeps(parse, s, o, now);
    assert O.Put(parse, s, o, now).0 == Over(s, o, now);
  }

  ghost function OkThen(parse: O.Parser, shelves: nat -> O.Shelf): nat -> bool {
    (n: nat) => O.ShelfOk(parse, shelves(n))
  }

  lemma StepKeepsOk(parse: O.Parser, os: seq<O.Object>, clock: nat -> string, shelves: nat -> O.Shelf,
                    good: nat -> bool, n: nat)
    requires n < |os| && PutStep(parse, os, clock, shelves, good, n) && good(n) && os[n].createdAt != ""
    ensures Runs.Kept(OkThen(parse, shelves), n)
  {
    if OkThen(parse, shelves)(n) {
      OverKeeps(parse, shelves(n), os[n], clock(n));
    }
  }

  /** Puts that no index blocks keep the invariant. */
  lemma FittingKeeps(parse: O.Parser, from: map<O.Key, O.Object>, os: seq<O.Object>, t: O.Shelf, clock: nat -> string)
    requires O.ShelfOk(parse, t) && ListsAll(from, os) && Keyed(from) && ObjectsFit(parse, from, t)
    requires forall o :: o in os ==> o.createdAt != ""
    ensures O.ShelfOk(parse, OverAll(t, os, clock))
  {
    var shelves, good := Shelves(t, os, clock), Admitted(parse, t, os, clock);
    AllAdmittedIff(parse, from, os, t, clock);
    forall n | 0 <= n < |os| ensures Runs.Kept(OkThen(parse, shelves), n) {
      ShelvesStep(parse, t, os, clock, n);
      assert good(n) && os[n] in os;
      StepKeepsOk(parse, os, clock, shelves, good, n);
    }
    assert os[..0] == [] && os[..|os|] == os;
    assert OkThen(parse, shelves)(0);
    Runs.UpTo(OkThen(parse, shelves), |os|, |os|);
  }
}
