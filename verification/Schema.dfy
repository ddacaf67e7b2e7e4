/** Schema documents: validation, and the canonical form that forgets declaration order. */
module Schema {
  import opened Prelude
  import opened Ordering

  datatype FieldType =
    | StringType
    | NumberType
    | BooleanType
    | DatetimeType
    | JsonType
    | VectorType(dimensions: u32)
    | EnumType(values: seq<string>)
    | ArrayType(element: string)
    | NamedType(reference: string)

  datatype Annotation = Annotation(name: string, arguments: seq<string>)

  datatype Field = Field(
    name: string,
    fieldType: FieldType,
    optional: bool,
    annotations: seq<Annotation>,
    default: Option<string>)

  datatype Collection = Collection(name: string, fields: seq<Field>)

  datatype Link = Link(name: string, from: string, to: string, linkType: string, cardinality: string)

  datatype Document = Document(version: u32, project: Option<string>, collections: seq<Collection>, links: seq<Link>)

  // ------------------------------------------------ one level of a document

  /** `sort_by(|left, right| left.name.cmp(&right.name))`, for things that have a name. */
  function ByName<T>(name: T -> string): (T, T) -> bool {
    (a, b) => StrLeq(name(a), name(b))
  }

  /** Sort by name, then bring each element into canonical form. */
  function Level<T>(name: T -> string, canon: T -> T, xs: seq<T>): seq<T> {
    Map(canon, Sort(ByName(name), xs))
  }

  ghost predicate DistinctNames<T>(name: T -> string, xs: seq<T>) {
    forall i, j :: 0 <= i < j < |xs| ==> name(xs[i]) != name(xs[j])
  }

  /** `ys` is `xs` in another order, up to `same` on the elements. */
  ghost predicate Reordered<T>(same: (T, T) -> bool, xs: seq<T>, ys: seq<T>) {
    |xs| == |ys| && exists p: seq<nat> :: IsPermutation(p, |xs|) && forall i :: 0 <= i < |xs| ==> same(xs[i], ys[p[i]])
  }

  lemma ByNameTotal<T(!new)>(name: T -> string)
    ensures TotalPreorder(ByName(name))
  {
    StrLeqTotal();
  }

  ghost predicate KeepsNames<T(!new)>(name: T -> string, canon: T -> T) {
    forall x :: name(canon(x)) == name(x)
  }

  /** A level is in name order, keeps its length, and holds exactly the canonical forms of the elements. */
  lemma LevelFacts<T(!new)>(name: T -> string, canon: T -> T, xs: seq<T>)
    requires KeepsNames(name, canon)
    ensures |Level(name, canon, xs)| == |xs|
    ensures Pairwise(ByName(name), Level(name, canon, xs))
    ensures forall z :: z in Level(name, canon, xs) <==> exists i :: 0 <= i < |xs| && z == canon(xs[i])
  {
    var leq := ByName(name);
    var sorted, level := Sort(leq, xs), Level(name, canon, xs);
    ByNameTotal(name);
    SortedPermutation(leq, xs);
    SortPermutes(leq, xs);
    forall i, j | 0 <= i < j < |level| ensures leq(level[i], level[j]) {
      assert leq(sorted[i], sorted[j]);
    }
    forall z ensures z in level <==> exists i :: 0 <= i < |xs| && z == canon(xs[i]) {
      if z in level {
        var k :| 0 <= k < |level| && level[k] == z;
        assert sorted[k] in sorted;
        var i :| 0 <= i < |xs| && xs[i] == sorted[k];
      }
      if i :| 0 <= i < |xs| && z == canon(xs[i]) {
        assert xs[i] in sorted;
        var k :| 0 <= k < |sorted| && sorted[k] == xs[i];
        assert level[k] == z;
      }
    }
  }

  lemma {:induction false} NamedMultiset<T(!new)>(name: T -> string, xs: seq<T>)
    requires DistinctNames(name, xs)
    ensures forall x :: multiset(xs)[x] == if x in xs then 1 else 0
  {
    if xs != [] {
      var init, last := xs[..|xs| - 1], xs[|xs| - 1];
      assert xs == init + [last];
      NamedMultiset(name, init);
      assert last !in init;
    }
  }

  lemma DistinctNamesPermuted<T(!new)>(name: T -> string, xs: seq<T>)
    requires DistinctNames(name, xs)
    ensures DistinctNames(name, Sort(ByName(name), xs))
  {
    ByNameTotal(name);
    SortPairwiseBoth(ByName(name), (a, b) => name(a) != name(b), xs);
  }

  lemma LevelDistinct<T(!new)>(name: T -> string, canon: T -> T, xs: seq<T>)
    requires KeepsNames(name, canon) && DistinctNames(name, xs)
    ensures DistinctNames(name, Level(name, canon, xs))
  {
    DistinctNamesPermuted(name, xs);
    SortPermutes(ByName(name), xs);
  }

  lemma LevelUnique<T(!new)>(name: T -> string, a: seq<T>, b: seq<T>)
    requires Pairwise(ByName(name), a) && Pairwise(ByName(name), b)
    requires DistinctNames(name, a) && DistinctNames(name, b)
    requires forall x :: x in a <==> x in b
    ensures a == b
  {
    NamedMultiset(name, a);
    NamedMultiset(name, b);
    assert multiset(a) == multiset(b);
    forall x, y | x in a && y in a && ByName(name)(x, y) && ByName(name)(y, x) ensures x == y {
      StrLeqTotal();
      var i, j :| 0 <= i < |a| && 0 <= j < |a| && a[i] == x && a[j] == y;
      assert name(a[i]) == name(a[j]);
    }
    SortedUnique(ByName(name), a, b);
  }

  /** An injection between lists of equal length, given by names, reaches everything. */
  lemma Covers<T(!new)>(name: T -> string, a: seq<T>, b: seq<T>)
    requires |a| == |b| && DistinctNames(name, a) && forall x :: x in a ==> x in b
    ensures forall x :: x in b ==> x in a
  {
    var sa, sb := set x | x in a, set x | x in b;
    NamedSetSize(name, a);
    SetSizeBound(b);
    SubsetOfSameSize(sa, sb);
    forall x | x in b ensures x in a {
      assert x in sb;
    }
  }

  lemma {:induction false} NamedSetSize<T(!new)>(name: T -> string, xs: seq<T>)
    requires DistinctNames(name, xs)
    ensures |set x | x in xs| == |xs|
  {
    if xs != [] {
      var init, last := xs[..|xs| - 1], xs[|xs| - 1];
      NamedSetSize(name, init);
      assert xs == init + [last] && last !in init;
      assert (set x | x in xs) == (set x | x in init) + {last};
    }
  }

  lemma {:induction false} SetSizeBound<T(!new)>(xs: seq<T>)
    ensures |set x | x in xs| <= |xs|
  {
    if xs != [] {
      var init, last := xs[..|xs| - 1], xs[|xs| - 1];
      SetSizeBound(init);
      assert xs == init + [last];
      assert (set x | x in xs) == (set x | x in init) + {last};
    }
  }

  lemma SubsetOfSameSize<T>(a: set<T>, b: set<T>)
    requires a <= b && |b| <= |a|
    ensures a == b
  {
    assert b == a + (b - a) && |b| == |a| + |b - a|;
  }

  lemma ReorderedGivesLevel<T(!new)>(name: T -> string, canon: T -> T, same: (T, T) -> bool, xs: seq<T>, ys: seq<T>)
    requires KeepsNames(name, canon) && DistinctNames(name, xs) && DistinctNames(name, ys)
    requires forall x, y :: x in xs && y in ys && same(x, y) ==> canon(x) == canon(y)
    requires Reordered(same, xs, ys)
    ensures Level(name, canon, xs) == Level(name, canon, ys)
  {
    var a, b := Level(name, canon, xs), Level(name, canon, ys);
    LevelFacts(name, canon, xs);
    LevelFacts(name, canon, ys);
    LevelDistinct(name, canon, xs);
    LevelDistinct(name, canon, ys);
    forall i | 0 <= i < |xs| ensures exists j :: 0 <= j < |ys| && canon(xs[i]) == canon(ys[j]) {
      ReorderedFinds(canon, same, xs, ys, i);
    }
    forall z | z in a ensures z in b {
      var i :| 0 <= i < |xs| && z == canon(xs[i]);
    }
    Covers(name, a, b);
    LevelUnique(name, a, b);
  }

  lemma ReorderedFinds<T(!new)>(canon: T -> T, same: (T, T) -> bool, xs: seq<T>, ys: seq<T>, i: nat)
    requires i < |xs| && Reordered(same, xs, ys)
    requires forall x, y :: x in xs && y in ys && same(x, y) ==> canon(x) == canon(y)
    ensures exists j :: 0 <= j < |ys| && canon(xs[i]) == canon(ys[j])
  {
    var p: seq<nat> :| IsPermutation(p, |xs|) && forall i :: 0 <= i < |xs| ==> same(xs[i], ys[p[i]]);
    assert xs[i] in xs && ys[p[i]] in ys && same(xs[i], ys[p[i]]);
  }

  lemma LevelGivesReordered<T(!new)>(name: T -> string, canon: T -> T, same: (T, T) -> bool, xs: seq<T>, ys: seq<T>)
    requires KeepsNames(name, canon) && DistinctNames(name, xs) && DistinctNames(name, ys)
    requires forall x, y :: x in xs && y in ys && canon(x) == canon(y) ==> same(x, y)
    requires Level(name, canon, xs) == Level(name, canon, ys)
    ensures Reordered(same, xs, ys)
  {
    LevelFacts(name, canon, xs);
    LevelFacts(name, canon, ys);
    forall i | 0 <= i < |xs| ensures exists j: nat :: j < |ys| && canon(xs[i]) == canon(ys[j]) {
      assert canon(xs[i]) in Level(name, canon, xs);
      var j :| 0 <= j < |ys| && canon(xs[i]) == canon(ys[j]);
    }
    var p := seq(|xs|, i requires 0 <= i < |xs| => var j: nat :| j < |ys| && canon(xs[i]) == canon(ys[j]); j);
    forall i, j | 0 <= i < j < |xs| ensures p[i] != p[j] {
      assert name(canon(xs[i])) == name(xs[i]) && name(canon(xs[j])) == name(xs[j]);
    }
    assert IsPermutation(p, |xs|);
    assert forall i :: 0 <= i < |xs| ==> same(xs[i], ys[p[i]]);
  }

  /** With distinct names on both sides, levels are equal exactly when the lists are reorderings of each other. */
  lemma LevelIsCanonical<T(!new)>(name: T -> string, canon: T -> T, same: (T, T) -> bool, xs: seq<T>, ys: seq<T>)
    requires KeepsNames(name, canon) && DistinctNames(name, xs) && DistinctNames(name, ys)
    requires forall x, y :: x in xs && y in ys ==> (same(x, y) <==> canon(x) == canon(y))
    ensures Level(name, canon, xs) == Level(name, canon, ys) <==> Reordered(same, xs, ys)
  {
    if Reordered(same, xs, ys) {
      ReorderedGivesLevel(name, canon, same, xs, ys);
    }
    if Level(name, canon, xs) == Level(name, canon, ys) {
      LevelGivesReordered(name, canon, same, xs, ys);
    }
  }

  lemma LevelIdempotent<T(!new)>(name: T -> string, canon: T -> T, xs: seq<T>)
    requires KeepsNames(name, canon) && forall x :: canon(canon(x)) == canon(x)
    ensures Level(name, canon, Level(name, canon, xs)) == Level(name, canon, xs)
  {
    LevelFacts(name, canon, xs);
    SortFixpoint(ByName(name), Level(name, canon, xs));
  }

  // ------------------------------------------------------- canonical documents

  function AnnotationName(a: Annotation): string { a.name }
  function FieldName(f: Field): string { f.name }
  function CollectionName(c: Collection): string { c.name }
  function LinkName(l: Link): string { l.name }
  function Same<T>(x: T): T { x }
  predicate Identical<T(==)>(x: T, y: T) { x == y }

  function CanonField(f: Field): Field {
    f.(annotations := Level(AnnotationName, Same, f.annotations))
  }

  function CanonCollection(c: Collection): Collection {
    c.(fields := Level(FieldName, CanonField, c.fields))
  }

  /** The sorted document that `canonical_json` serialises. */
  function Canon(d: Document): Document {
    d.(collections := Level(CollectionName, CanonCollection, d.collections), links := Level(LinkName, Same, d.links))
  }

  // Equality up to declaration order, defined without sorting.

  ghost predicate SameField(f: Field, g: Field) {
    && f.name == g.name && f.fieldType == g.fieldType && f.optional == g.optional && f.default == g.default
    && Reordered(Identical, f.annotations, g.annotations)
  }

  ghost predicate SameCollection(c: Collection, d: Collection) {
    c.name == d.name && Reordered((f: Field, g: Field) => SameField(f, g), c.fields, d.fields)
  }

  ghost predicate SameUpToOrder(a: Document, b: Document) {
    && a.version == b.version && a.project == b.project
    && Reordered((c: Collection, d: Collection) => SameCollection(c, d), a.collections, b.collections)
    && Reordered(Identical, a.links, b.links)
  }

  ghost predicate WellNamedCollection(c: Collection) {
    DistinctNames(FieldName, c.fields) && forall f :: f in c.fields ==> DistinctNames(AnnotationName, f.annotations)
  }

  /** Names are distinct at every level. `Validate` checks this of collections and fields only. */
  ghost predicate WellNamed(d: Document) {
    && DistinctNames(CollectionName, d.collections) && DistinctNames(LinkName, d.links)
    && forall c :: c in d.collections ==> WellNamedCollection(c)
  }

  lemma FieldCanonical(f: Field, g: Field)
    requires DistinctNames(AnnotationName, f.annotations) && DistinctNames(AnnotationName, g.annotations)
    ensures CanonField(f) == CanonField(g) <==> SameField(f, g)
  {
    LevelIsCanonical(AnnotationName, Same, Identical, f.annotations, g.annotations);
  }

  lemma CollectionCanonical(c: Collection, d: Collection)
    requires WellNamedCollection(c) && WellNamedCollection(d)
    ensures CanonCollection(c) == CanonCollection(d) <==> SameCollection(c, d)
  {
    forall f, g | f in c.fields && g in d.fields ensures SameField(f, g) <==> CanonField(f) == CanonField(g) {
      FieldCanonical(f, g);
    }
    LevelIsCanonical(FieldName, CanonField, (f: Field, g: Field) => SameField(f, g), c.fields, d.fields);
  }

  /** Documents with distinct names have the same canonical form exactly when they differ only in the order of
      collections, links, fields and annotations. */
  lemma CanonicalIffSameUpToOrder(a: Document, b: Document)
    requires WellNamed(a) && WellNamed(b)
    ensures Canon(a) == Canon(b) <==> SameUpToOrder(a, b)
  {
    forall c, d | c in a.collections && d in b.collections
      ensures SameCollection(c, d) <==> CanonCollection(c) == CanonCollection(d)
    {
      CollectionCanonical(c, d);
    }
    LevelIsCanonical(CollectionName, CanonCollection, (c: Collection, d: Collection) => SameCollection(c, d),
                     a.collections, b.collections);
    LevelIsCanonical(LinkName, Same, Identical, a.links, b.links);
  }

  lemma CanonFieldIdempotent(f: Field)
    ensures CanonField(CanonField(f)) == CanonField(f)
  {
    LevelIdempotent(AnnotationName, Same, f.annotations);
  }

  lemma CanonCollectionIdempotent(c: Collection)
    ensures CanonCollection(CanonCollection(c)) == CanonCollection(c)
  {
    forall f ensures CanonField(CanonField(f)) == CanonField(f) {
      CanonFieldIdempotent(f);
    }
    LevelIdempotent(FieldName, CanonField, c.fields);
  }

  /** Canonicalising twice is canonicalising once, for every document. */
  lemma CanonIdempotent(d: Document)
    ensures Canon(Canon(d)) == Canon(d)
  {
    forall c ensures CanonCollection(CanonCollection(c)) == CanonCollection(c) {
      CanonCollectionIdempotent(c);
    }
    LevelIdempotent(CollectionName, CanonCollection, d.collections);
    LevelIdempotent(LinkName, Same, d.links);
  }

  /** A level is its list in another order, up to `same`, when each element is the same as its canonical form. */
  lemma LevelReorders<T(!new)>(name: T -> string, canon: T -> T, same: (T, T) -> bool, xs: seq<T>)
    requires forall x :: x in xs ==> same(canon(x), x)
    ensures Reordered(same, Level(name, canon, xs), xs)
  {
    var sorted, level := Sort(ByName(name), xs), Level(name, canon, xs);
    SortPermutes(ByName(name), xs);
    var p := FindPermutation(sorted, xs);
    forall i | 0 <= i < |level| ensures same(level[i], xs[p[i]]) {
      assert sorted[i] == xs[p[i]] && xs[p[i]] in xs;
    }
  }

  lemma CanonFieldIsSame(f: Field)
    ensures SameField(CanonField(f), f)
  {
    LevelReorders(AnnotationName, Same, Identical, f.annotations);
  }

  lemma CanonCollectionIsSame(c: Collection)
    ensures SameCollection(CanonCollection(c), c)
  {
    forall f | f in c.fields ensures SameField(CanonField(f), f) {
      CanonFieldIsSame(f);
    }
    LevelReorders(FieldName, CanonField, (f: Field, g: Field) => SameField(f, g), c.fields);
  }

  /** The canonical form is the document itself up to order: nothing is lost or added, whatever the names. */
  lemma CanonLosesNothing(d: Document)
    ensures SameUpToOrder(Canon(d), d)
  {
    forall c | c in d.collections ensures SameCollection(CanonCollection(c), c) {
      CanonCollectionIsSame(c);
    }
    LevelReorders(CollectionName, CanonCollection, (c: Collection, e: Collection) => SameCollection(c, e),
                  d.collections);
    LevelReorders(LinkName, Same, Identical, d.links);
  }

  /** Where names are not required to be distinct the promise fails: the declaration order of a list of links,
      or of annotations, shows in the canonical form exactly when two different ones share a name. */
  lemma OrderShows<T(!new)>(name: T -> string, xs: seq<T>)
    ensures (forall other :: multiset(other) == multiset(xs) ==> Level(name, Same, other) == Level(name, Same, xs))
            <==> (forall k, l :: k in xs && l in xs && name(k) == name(l) ==> k == l)
  {
    var leq := ByName(name);
    ByNameTotal(name);
    LevelOfSame(name, xs);
    if k, l :| k in xs && l in xs && name(k) == name(l) && k != l {
      var i, j :| 0 <= i < |xs| && 0 <= j < |xs| && xs[i] == k && xs[j] == l;
      Tied(name, k, l);
      var other := TieShows(leq, xs, i, j);
      LevelOfSame(name, other);
    } else {
      forall other | multiset(other) == multiset(xs) ensures Level(name, Same, other) == Level(name, Same, xs) {
        forall k, l | k in xs && l in xs && leq(k, l) && leq(l, k) ensures k == l {
          Tied(name, k, l);
        }
        NoTiesOneOrder(leq, xs, other);
        LevelOfSame(name, other);
      }
    }
  }

  lemma LevelOfSame<T>(name: T -> string, xs: seq<T>)
    ensures Level(name, Same, xs) == Sort(ByName(name), xs)
  {
  }

  lemma Tied<T>(name: T -> string, k: T, l: T)
    ensures ByName(name)(k, l) && ByName(name)(l, k) <==> name(k) == name(l)
  {
    StrCmpFlip(name(k), name(l));
    StrCmpEqual(name(k), name(l));
  }

  /** `canonical_json` up to serialisation: clone, sort the two lists, then sort inside each collection. */
  method Canonicalize(d: Document) returns (canonical: Document)
    ensures canonical == Canon(d)
  {
    canonical := d;
    canonical := canonical.(collections := Sort(ByName(CollectionName), canonical.collections));
    canonical := canonical.(links := Sort(ByName(LinkName), canonical.links));
    LevelOfSame(LinkName, d.links);
    ghost var sorted := canonical.collections;
    for i := 0 to |canonical.collections|
      invariant canonical == d.(collections := canonical.collections, links := Sort(ByName(LinkName), d.links))
      invariant |canonical.collections| == |sorted|
      invariant forall j :: 0 <= j < i ==> canonical.collections[j] == CanonCollection(sorted[j])
      invariant forall j :: i <= j < |sorted| ==> canonical.collections[j] == sorted[j]
    {
      var fields := Sort(ByName(FieldName), canonical.collections[i].fields);
      ghost var before := fields;
      for k := 0 to |fields|
        invariant |fields| == |before|
        invariant forall j :: 0 <= j < k ==> fields[j] == CanonField(before[j])
        invariant forall j :: k <= j < |before| ==> fields[j] == before[j]
      {
        LevelOfSame(AnnotationName, fields[k].annotations);
        fields := fields[k := fields[k].(annotations := Sort(ByName(AnnotationName), fields[k].annotations))];
      }
      assert fields == Level(FieldName, CanonField, sorted[i].fields);
      canonical := canonical.(collections := canonical.collections[i := canonical.collections[i].(fields := fields)]);
    }
    assert canonical.collections == Level(CollectionName, CanonCollection, d.collections);
  }

  // ------------------------------------------------------------- validation

  datatype SchemaError =
    | DuplicateCollection(collection: string)
    | DuplicateField(collection: string, field: string)
    | EmptyVector(collection: string, field: string)
    | UnknownCollection(link: string)

  predicate Vectorless(f: Field) {
    f.fieldType.VectorType? && f.fieldType.dimensions == 0
  }

  ghost predicate ValidCollection(c: Collection) {
    DistinctNames(FieldName, c.fields) && forall f :: f in c.fields ==> !Vectorless(f)
  }

  ghost predicate Declared(d: Document, name: string) {
    exists c :: c in d.collections && c.name == name
  }

  /** Collections have distinct names, so have the fields of each, vectors have dimensions, and links connect
      declared collections. */
  ghost predicate ValidDocument(d: Document) {
    && DistinctNames(CollectionName, d.collections)
    && (forall c :: c in d.collections ==> ValidCollection(c))
    && (forall l :: l in d.links ==> Declared(d, l.from) && Declared(d, l.to))
  }

  /** The error names a fault that the document has. */
  ghost predicate Justified(d: Document, e: SchemaError) {
    match e
    case DuplicateCollection(n) =>
      exists i, j :: 0 <= i < j < |d.collections| && d.collections[i].name == n && d.collections[j].name == n
    case DuplicateField(n, f) =>
      exists c :: c in d.collections && c.name == n && HasDuplicate(c.fields, f)
    case EmptyVector(n, f) =>
      exists c, g :: c in d.collections && c.name == n && g in c.fields && g.name == f && Vectorless(g)
    case UnknownCollection(n) =>
      exists l :: l in d.links && l.name == n && !(Declared(d, l.from) && Declared(d, l.to))
  }

  ghost predicate HasDuplicate(fields: seq<Field>, name: string) {
    exists i, j :: 0 <= i < j < |fields| && fields[i].name == name && fields[j].name == name
  }

  /** Checks one collection; faults come in declaration order. */
  method ValidateCollection(c: Collection) returns (r: Result<(), SchemaError>)
    ensures r.Ok? <==> ValidCollection(c)
    ensures r.Err? ==> forall d: Document :: c in d.collections ==> Justified(d, r.error)
  {
    var names: set<string> := {};
    for i := 0 to |c.fields|
      invariant names == set j | 0 <= j < i :: c.fields[j].name
      invariant DistinctNames(FieldName, c.fields[..i])
      invariant forall f :: f in c.fields[..i] ==> !Vectorless(f)
    {
      var f := c.fields[i];
      if f.name in names {
        var j :| 0 <= j < i && c.fields[j].name == f.name;
        assert FieldName(c.fields[j]) == FieldName(c.fields[i]);
        assert HasDuplicate(c.fields, f.name);
        return Err(DuplicateField(c.name, f.name));
      }
      names := names + {f.name};
      if Vectorless(f) {
        assert f in c.fields;
        return Err(EmptyVector(c.name, f.name));
      }
      assert c.fields[..i + 1] == c.fields[..i] + [f];
    }
    assert c.fields[..|c.fields|] == c.fields;
    return Ok(());
  }

  /** Accepts exactly the valid documents, and names a real fault of the others. */
  method Validate(d: Document) returns (r: Result<(), SchemaError>)
    ensures r.Ok? <==> ValidDocument(d)
    ensures r.Err? ==> Justified(d, r.error)
  {
    var names: set<string> := {};
    for i := 0 to |d.collections|
      invariant names == set j | 0 <= j < i :: d.collections[j].name
      invariant DistinctNames(CollectionName, d.collections[..i])
      invariant forall j :: 0 <= j < i ==> ValidCollection(d.collections[j])
    {
      var c := d.collections[i];
      if c.name in names {
        var j :| 0 <= j < i && d.collections[j].name == c.name;
        assert CollectionName(d.collections[j]) == CollectionName(d.collections[i]);
        return Err(DuplicateCollection(c.name));
      }
      names := names + {c.name};
      var inner := ValidateCollection(c);
      if inner.Err? {
        assert c in d.collections;
        return inner;
      }
      assert d.collections[..i + 1] == d.collections[..i] + [c];
    }
    assert d.collections[..|d.collections|] == d.collections;
    forall n ensures n in names <==> Declared(d, n) {
      if n in names {
        var j :| 0 <= j < |d.collections| && d.collections[j].name == n;
        assert d.collections[j] in d.collections;
      }
    }
    for i := 0 to |d.links|
      invariant forall j :: 0 <= j < i ==> Declared(d, d.links[j].from) && Declared(d, d.links[j].to)
    {
      var l := d.links[i];
      if l.from !in names || l.to !in names {
        assert l in d.links;
        return Err(UnknownCollection(l.name));
      }
    }
    return Ok(());
  }
}
