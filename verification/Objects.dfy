/** Versioned objects, their vectors, and unique indexes over fields of their JSON bodies. */
module Objects {
  import opened Prelude
  import opened Json

  type Vector = seq<real>

  /** `serde_json::from_str` on an object body, a parameter of the model. */
  type Parser = string -> Option<Value>

  datatype Key = Key(collection: string, id: string)

  datatype Object = Object(
    key: Key,
    body: string,
    version: u64,
    createdAt: string,
    updatedAt: string,
    vector: Option<Vector>)

  datatype Index = Index(collection: string, field: string, unique: bool)

  datatype Shelf = Shelf(
    objects: map<Key, Object>,
    vectors: map<Key, Vector>,
    indexes: map<(string, string), Index>)

  const EMPTY_SHELF := Shelf(map[], map[], map[])

  // ---------------------------------------------------------- unique fields

  /** `body.get(field)`, present only in a JSON object. */
  function Lookup(fields: seq<(string, Value)>, field: string): Option<Value> {
    if fields == [] then None
    else if fields[0].0 == field then Some(fields[0].1)
    else Lookup(fields[1..], field)
  }

  /** The value an index on `field` sees in the object: none when it is missing, null or not JSON. */
  function Indexed(parse: Parser, o: Object, field: string): Option<Value> {
    match parse(o.body)
    case Some(Obj(fields)) =>
      var v := Lookup(fields, field);
      if v.Some? && v.value == Null then None else v
    case _ => None
  }

  predicate Clash(parse: Parser, a: Object, b: Object, field: string) {
    var x, y := Indexed(parse, a, field), Indexed(parse, b, field);
    x.Some? && y.Some? && JsonEq(x.value, y.value)
  }

  lemma ClashSymmetric(parse: Parser, a: Object, b: Object, field: string)
    ensures Clash(parse, a, b, field) == Clash(parse, b, a, field)
  {
    var x, y := Indexed(parse, a, field), Indexed(parse, b, field);
    if x.Some? && y.Some? {
      JsonEqSymmetric(x.value, y.value);
    }
  }

  /** The index is unique, covers `o`, and sees in the object stored under another key the value it sees in `o`. */
  predicate Blocks(parse: Parser, o: Object, index: Index, k: Key, existing: Object) {
    && index.unique && index.collection == o.key.collection && k != o.key && k.collection == o.key.collection
    && Clash(parse, o, existing, index.field)
  }

  predicate Admits(parse: Parser, s: Shelf, o: Object) {
    forall ix, k :: ix in s.indexes && k in s.objects ==> !Blocks(parse, o, s.indexes[ix], k, s.objects[k])
  }

  /** No two objects of the collection share an indexed value of the field. */
  predicate FieldIsUnique(parse: Parser, objects: map<Key, Object>, collection: string, field: string) {
    forall a, b :: a in objects && b in objects && a != b && a.collection == collection && b.collection == collection
      ==> !Clash(parse, objects[a], objects[b], field)
  }

  // -------------------------------------------------------------- operations

  function SetVector(vectors: map<Key, Vector>, key: Key, vector: Option<Vector>): map<Key, Vector> {
    if vector.Some? then vectors[key := vector.value] else vectors - {key}
  }

  function Stamp(s: Shelf, o: Object, now: string): Object {
    o.(version := if o.key in s.objects then Increment(s.objects[o.key].version) else 1,
       updatedAt := now,
       createdAt := if o.createdAt == "" then now else o.createdAt)
  }

  function Put(parse: Parser, s: Shelf, o: Object, now: string): (Shelf, Result<Object, Error>) {
    if !Admits(parse, s, o) then (s, Err(Conflict)) else
      var stored := Stamp(s, o, now);
      (s.(objects := s.objects[o.key := stored], vectors := SetVector(s.vectors, o.key, o.vector)), Ok(stored))
  }

  predicate VersionMatches(s: Shelf, key: Key, expected: u64) {
    if expected == 0 then key !in s.objects else key in s.objects && s.objects[key].version == expected
  }

  function PutWithOptions(parse: Parser, s: Shelf, o: Object, expected: Option<u64>, now: string)
    : (Shelf, Result<Object, Error>)
  {
    if expected.Some? && !VersionMatches(s, o.key, expected.value) then (s, Err(Conflict)) else Put(parse, s, o, now)
  }

  function PutWithSourceMetadata(parse: Parser, s: Shelf, o: Object, expected: Option<u64>, now: string)
    : (Shelf, Result<Object, Error>)
  {
    if expected.Some? && !(o.key in s.objects && s.objects[o.key].version == expected.value)
    then (s, Err(Conflict)) else
      var (s', r) := Put(parse, s, o, now);
      if r.Err? then (s', r) else
        var replicated := r.value.(
          version := if o.version > 0 then o.version else r.value.version,
          createdAt := if o.createdAt != "" then o.createdAt else r.value.createdAt,
          updatedAt := if o.updatedAt != "" then o.updatedAt else r.value.updatedAt);
        (s'.(objects := s'.objects[o.key := replicated]), Ok(replicated))
  }

  function Remove(s: Shelf, key: Key): (Shelf, bool) {
    (s.(objects := s.objects - {key}, vectors := s.vectors - {key}), key in s.objects)
  }

  function CreateIndex(parse: Parser, s: Shelf, ix: Index): (Shelf, Result<(), Error>) {
    if ix.collection == "" || ix.field == "" then (s, Err(InvalidInput))
    else if ix.unique && !FieldIsUnique(parse, s.objects, ix.collection, ix.field) then (s, Err(Conflict))
    else (s.(indexes := s.indexes[(ix.collection, ix.field) := ix]), Ok(()))
  }

  function DeleteIndex(s: Shelf, collection: string, field: string): (Shelf, bool) {
    (s.(indexes := s.indexes - {(collection, field)}), (collection, field) in s.indexes)
  }

  function AddVector(s: Shelf, key: Key, vector: Vector): Shelf {
    s.(vectors := s.vectors[key := vector])
  }

  function RemoveVector(s: Shelf, key: Key): Shelf {
    s.(vectors := s.vectors - {key})
  }

  // --------------------------------------------------------------- invariant

  /** Objects and indexes are filed under their own names, objects carry a creation stamp, and every unique
      index is true of the objects. */
  ghost predicate ShelfOk(parse: Parser, s: Shelf) {
    && (forall k :: k in s.objects ==> s.objects[k].key == k && s.objects[k].createdAt != "")
    && (forall ix :: ix in s.indexes ==> ix == (s.indexes[ix].collection, s.indexes[ix].field))
    && (forall ix :: ix in s.indexes && s.indexes[ix].unique ==> FieldIsUnique(parse, s.objects, ix.0, ix.1))
  }

  /** Only the body of an object matters to an index. */
  lemma ReplaceKeepsUnique(parse: Parser, s: Shelf, o: Object, stored: Object, ix: (string, string))
    requires ShelfOk(parse, s) && Admits(parse, s, o) && stored.key == o.key && stored.body == o.body
    requires ix in s.indexes && s.indexes[ix].unique
    ensures FieldIsUnique(parse, s.objects[o.key := stored], ix.0, ix.1)
  {
    var objects := s.objects[o.key := stored];
    forall a, b | a in objects && b in objects && a != b && a.collection == ix.0 && b.collection == ix.0
      ensures !Clash(parse, objects[a], objects[b], ix.1)
    {
      ClashSymmetric(parse, objects[a], objects[b], ix.1);
      if a == o.key {
        assert !Blocks(parse, o, s.indexes[ix], b, s.objects[b]);
      } else if b == o.key {
        assert !Blocks(parse, o, s.indexes[ix], a, s.objects[a]);
      }
    }
  }

  lemma PutKeeps(parse: Parser, s: Shelf, o: Object, now: string)
    requires ShelfOk(parse, s) && (now != "" || o.createdAt != "")
    ensures ShelfOk(parse, Put(parse, s, o, now).0)
  {
    if Admits(parse, s, o) {
      forall ix | ix in s.indexes && s.indexes[ix].unique
        ensures FieldIsUnique(parse, s.objects[o.key := Stamp(s, o, now)], ix.0, ix.1)
      {
        ReplaceKeepsUnique(parse, s, o, Stamp(s, o, now), ix);
      }
    }
  }

  lemma SourceMetadataKeeps(parse: Parser, s: Shelf, o: Object, expected: Option<u64>, now: string)
    requires ShelfOk(parse, s) && now != ""
    ensures ShelfOk(parse, PutWithSourceMetadata(parse, s, o, expected, now).0)
  {
    var (s', r) := PutWithSourceMetadata(parse, s, o, expected, now);
    if r.Ok? {
      assert s'.objects == s.objects[o.key := r.value];
      forall ix | ix in s.indexes && s.indexes[ix].unique ensures FieldIsUnique(parse, s'.objects, ix.0, ix.1) {
        ReplaceKeepsUnique(parse, s, o, r.value, ix);
      }
    }
  }

  // ------------------------------------------------------------------- runs

  datatype Op =
    | PutOp(o: Object, now: string)
    | PutWithOptionsOp(o: Object, expected: Option<u64>, now: string)
    | PutWithSourceMetadataOp(o: Object, expected: Option<u64>, now: string)
    | RemoveOp(key: Key)
    | CreateIndexOp(ix: Index)
    | DeleteIndexOp(collection: string, field: string)
    | AddVectorOp(key: Key, v: Vector)
    | RemoveVectorOp(key: Key)

  predicate Stamped(op: Op) {
    match op
    case PutOp(_, now) => now != ""
    case PutWithOptionsOp(_, _, now) => now != ""
    case PutWithSourceMetadataOp(_, _, now) => now != ""
    case _ => true
  }

  function Step(parse: Parser, s: Shelf, op: Op): Shelf {
    match op
    case PutOp(o, now) => Put(parse, s, o, now).0
    case PutWithOptionsOp(o, expected, now) => PutWithOptions(parse, s, o, expected, now).0
    case PutWithSourceMetadataOp(o, expected, now) => PutWithSourceMetadata(parse, s, o, expected, now).0
    case RemoveOp(key) => Remove(s, key).0
    case CreateIndexOp(ix) => CreateIndex(parse, s, ix).0
    case DeleteIndexOp(c, f) => DeleteIndex(s, c, f).0
    case AddVectorOp(key, v) => AddVector(s, key, v)
    case RemoveVectorOp(key) => RemoveVector(s, key)
  }

  lemma StepKeeps(parse: Parser, s: Shelf, op: Op)
    requires ShelfOk(parse, s) && Stamped(op)
    ensures ShelfOk(parse, Step(parse, s, op))
  {
    match op
    case PutOp(o, now) => PutKeeps(parse, s, o, now);
    case PutWithOptionsOp(o, expected, now) => PutKeeps(parse, s, o, now);
    case PutWithSourceMetadataOp(o, expected, now) => SourceMetadataKeeps(parse, s, o, expected, now);
    case _ =>
  }

  /** The shelf after the first `k` operations on `s`. */
  function RunFrom(parse: Parser, s: Shelf, ops: seq<Op>, k: nat): Shelf
    requires k <= |ops|
  {
    if k == 0 then s else Step(parse, RunFrom(parse, s, ops, k - 1), ops[k - 1])
  }

  /** After any run of writes, deletions and index changes on an empty store, no two objects of a collection
      share a non-null value of a field under a unique index, whatever the JSON parser accepts. */
  lemma {:induction false} UniqueIndexesHold(parse: Parser, ops: seq<Op>, k: nat)
    requires k <= |ops| && forall i :: 0 <= i < |ops| ==> Stamped(ops[i])
    ensures ShelfOk(parse, RunFrom(parse, EMPTY_SHELF, ops, k))
  {
    if k > 0 {
      UniqueIndexesHold(parse, ops, k - 1);
      StepKeeps(parse, RunFrom(parse, EMPTY_SHELF, ops, k - 1), ops[k - 1]);
    }
  }

  // ------------------------------------------------------ optimistic locking

  /** An expected version of a missing object. With options, zero stands for its absence, so the write succeeds
      exactly when that was expected and the indexes admit it; with source metadata it always conflicts. */
  lemma ExpectedOfMissing(parse: Parser, s: Shelf, o: Object, expected: u64, now: string)
    requires o.key !in s.objects
    ensures PutWithOptions(parse, s, o, Some(expected), now).1.Ok? <==> expected == 0 && Admits(parse, s, o)
    ensures !PutWithOptions(parse, s, o, Some(expected), now).1.Ok? ==>
      PutWithOptions(parse, s, o, Some(expected), now) == (s, Err(Conflict))
    ensures PutWithSourceMetadata(parse, s, o, Some(expected), now) == (s, Err(Conflict))
  {
  }

  /** Operations that leave version numbers to the store. */
  predicate Ordinary(op: Op) {
    !op.RemoveOp? && !op.PutWithSourceMetadataOp?
  }

  /** The version `c` writes after version `v`. */
  function Advanced(v: u64, c: nat): u64 {
    (v + c) % (U64_MAX + 1)
  }

  lemma AdvancedOnce(v: u64, c: nat)
    ensures Increment(Advanced(v, c)) == Advanced(v, c + 1)
  {
  }

  lemma VersionStep(parse: Parser, s: Shelf, op: Op, key: Key)
    requires Ordinary(op) && key in s.objects
    ensures var s' := Step(parse, s, op);
      key in s'.objects && s'.objects[key].version in {s.objects[key].version, Increment(s.objects[key].version)}
  {
  }

  lemma NextVersion(parse: Parser, s: Shelf, op: Op, key: Key, v: u64, c: nat) returns (c': nat)
    requires Ordinary(op) && key in s.objects && s.objects[key].version == Advanced(v, c)
    ensures c <= c' <= c + 1 && key in Step(parse, s, op).objects
    ensures Step(parse, s, op).objects[key].version == Advanced(v, c')
  {
    VersionStep(parse, s, op, key);
    AdvancedOnce(v, c);
    c' := if Step(parse, s, op).objects[key].version == Advanced(v, c) then c else c + 1;
  }

  lemma AdvancedWithin(v: u64, c: nat, k: nat)
    requires c <= k
    ensures v + k <= U64_MAX ==> v <= Advanced(v, c) <= v + k
  {
  }

  /** In a run without deletions and source-metadata writes the object stays, and its version is that of at most
      one write per operation later; in particular it never falls before it wraps. */
  lemma {:induction false} VersionsGrow(parse: Parser, s: Shelf, ops: seq<Op>, k: nat, key: Key) returns (c: nat)
    requires k <= |ops| && key in s.objects && forall i :: 0 <= i < |ops| ==> Ordinary(ops[i])
    ensures c <= k && key in RunFrom(parse, s, ops, k).objects
    ensures var v, v' := s.objects[key].version, RunFrom(parse, s, ops, k).objects[key].version;
      v' == Advanced(v, c) && (v + k <= U64_MAX ==> v <= v' <= v + k)
  {
    c := 0;
    if k > 0 {
      c := VersionsGrow(parse, s, ops, k - 1, key);
      c := NextVersion(parse, RunFrom(parse, s, ops, k - 1), ops[k - 1], key, s.objects[key].version, c);
    }
    AdvancedWithin(s.objects[key].version, c, k);
  }

  lemma WriteAdvances(parse: Parser, s: Shelf, o: Object, expected: u64, now: string)
    requires PutWithOptions(parse, s, o, Some(expected), now).1.Ok?
    ensures var s' := PutWithOptions(parse, s, o, Some(expected), now).0;
      o.key in s'.objects && s'.objects[o.key].version == Increment(expected)
  {
  }

  lemma StaleVersionConflicts(parse: Parser, s: Shelf, o: Object, expected: u64, c: nat, now: string)
    requires o.key in s.objects && s.objects[o.key].version == Advanced(Increment(expected), c) && c < U64_MAX
    ensures PutWithOptions(parse, s, o, Some(expected), now) == (s, Err(Conflict))
  {
    assert Advanced(Increment(expected), c) != expected || expected == 0;
  }

  /** Optimistic locking: once a write that expected a version has succeeded, every other write of the object
      that expects the same version fails and changes nothing, whatever ordinary operations come in between, as
      long as they are too few to bring every version round again. */
  lemma StaleWriterFails(parse: Parser, s: Shelf, first: Object, second: Object, expected: u64,
                         now: string, ops: seq<Op>, later: string)
    requires first.key == second.key && |ops| < U64_MAX && forall i :: 0 <= i < |ops| ==> Ordinary(ops[i])
    requires PutWithOptions(parse, s, first, Some(expected), now).1.Ok?
    ensures var s' := RunFrom(parse, PutWithOptions(parse, s, first, Some(expected), now).0, ops, |ops|);
      PutWithOptions(parse, s', second, Some(expected), later) == (s', Err(Conflict))
  {
    var s1 := PutWithOptions(parse, s, first, Some(expected), now).0;
    WriteAdvances(parse, s, first, expected, now);
    var c := VersionsGrow(parse, s1, ops, |ops|, first.key);
    StaleVersionConflicts(parse, RunFrom(parse, s1, ops, |ops|), second, expected, c, later);
  }
}
