/** When the declaration order of a valid document shows in its canonical form. */
module SchemaOrder {
  import opened Prelude
  import opened Ordering
  import opened Schema

  /** No two different elements share a name; the same element may be repeated. */
  ghost predicate TieFree<T(!new)>(name: T -> string, xs: seq<T>) {
    forall x, y :: x in xs && y in xs && name(x) == name(y) ==> x == y
  }

  ghost predicate PlainCollection(c: Collection) {
    forall f :: f in c.fields ==> TieFree(AnnotationName, f.annotations)
  }

  /** Validation does not check this: different links, and different annotations of a field, have different names. */
  ghost predicate Unambiguous(d: Document) {
    TieFree(LinkName, d.links) && forall c :: c in d.collections ==> PlainCollection(c)
  }

  ghost predicate OrderIsInvisible(d: Document) {
    forall e :: SameUpToOrder(e, d) ==> Canon(e) == Canon(d)
  }

  // ------------------------------------------- unambiguous documents

  lemma SortForgetsOrder<T(!new)>(name: T -> string, xs: seq<T>, ys: seq<T>)
    requires TieFree(name, ys) && Reordered(Identical, xs, ys)
    ensures Level(name, Same, xs) == Level(name, Same, ys)
  {
    var p: seq<nat> :| IsPermutation(p, |xs|) && forall i :: 0 <= i < |xs| ==> Identical(xs[i], ys[p[i]]);
    PermutedMultiset(p, xs, ys);
    OrderShows(name, ys);
  }

  lemma ReorderedNames<T(!new)>(name: T -> string, same: (T, T) -> bool, xs: seq<T>, ys: seq<T>)
    requires Reordered(same, xs, ys) && DistinctNames(name, ys)
    requires forall x, y :: same(x, y) ==> name(x) == name(y)
    ensures DistinctNames(name, xs)
  {
    var p: seq<nat> :| IsPermutation(p, |xs|) && forall i :: 0 <= i < |xs| ==> same(xs[i], ys[p[i]]);
    forall i, j | 0 <= i < j < |xs| ensures name(xs[i]) != name(xs[j]) {
      assert same(xs[i], ys[p[i]]) && same(xs[j], ys[p[j]]) && p[i] != p[j];
    }
  }

  lemma SameFieldSameCanon(f: Field, g: Field)
    requires SameField(f, g) && TieFree(AnnotationName, g.annotations)
    ensures CanonField(f) == CanonField(g)
  {
    SortForgetsOrder(AnnotationName, f.annotations, g.annotations);
  }

  lemma SameCollectionSameCanon(b: Collection, c: Collection)
    requires SameCollection(b, c) && PlainCollection(c) && DistinctNames(FieldName, c.fields)
    ensures CanonCollection(b) == CanonCollection(c)
  {
    var same := (f: Field, g: Field) => SameField(f, g);
    ReorderedNames(FieldName, same, b.fields, c.fields);
    forall f, g | f in b.fields && g in c.fields && same(f, g) ensures CanonField(f) == CanonField(g) {
      SameFieldSameCanon(f, g);
    }
    ReorderedGivesLevel(FieldName, CanonField, same, b.fields, c.fields);
  }

  lemma SameDocumentSameCanon(e: Document, d: Document)
    requires SameUpToOrder(e, d) && ValidDocument(d) && Unambiguous(d)
    ensures Canon(e) == Canon(d)
  {
    var same := (b: Collection, c: Collection) => SameCollection(b, c);
    ReorderedNames(CollectionName, same, e.collections, d.collections);
    forall b, c | b in e.collections && c in d.collections && same(b, c)
      ensures CanonCollection(b) == CanonCollection(c)
    {
      assert PlainCollection(c) && ValidCollection(c);
      SameCollectionSameCanon(b, c);
    }
    ReorderedGivesLevel(CollectionName, CanonCollection, same, e.collections, d.collections);
    SortForgetsOrder(LinkName, e.links, d.links);
  }

  // --------------------------------------------- ambiguous documents

  lemma OtherOrder<T(!new)>(name: T -> string, xs: seq<T>) returns (other: seq<T>)
    requires !TieFree(name, xs)
    ensures Reordered(Identical, other, xs) && Level(name, Same, other) != Level(name, Same, xs)
  {
    OrderShows(name, xs);
    other :| multiset(other) == multiset(xs) && Level(name, Same, other) != Level(name, Same, xs);
    var p := FindPermutation(other, xs);
    assert |other| == |xs| && forall i :: 0 <= i < |other| ==> Identical(other[i], xs[p[i]]);
  }

  /** Lists that agree place by place are in the same order. */
  lemma InPlace<T>(same: (T, T) -> bool, xs: seq<T>, ys: seq<T>)
    requires |xs| == |ys| && forall i :: 0 <= i < |xs| ==> same(xs[i], ys[i])
    ensures Reordered(same, xs, ys)
  {
    var p: seq<nat> := seq(|xs|, i requires 0 <= i < |xs| => i);
    assert IsPermutation(p, |xs|) && forall i :: 0 <= i < |xs| ==> same(xs[i], ys[p[i]]);
  }

  lemma FieldIsItself(f: Field)
    ensures SameField(f, f)
  {
    InPlace(Identical, f.annotations, f.annotations);
  }

  lemma CollectionIsItself(c: Collection)
    ensures SameCollection(c, c)
  {
    forall i | 0 <= i < |c.fields| ensures SameField(c.fields[i], c.fields[i]) {
      FieldIsItself(c.fields[i]);
    }
    InPlace((f: Field, g: Field) => SameField(f, g), c.fields, c.fields);
  }

  /** With distinct names a level shows the canonical form of each element. */
  lemma LevelShows<T(!new)>(name: T -> string, canon: T -> T, xs: seq<T>, i: nat, y: T)
    requires KeepsNames(name, canon) && DistinctNames(name, xs) && i < |xs| && name(y) == name(xs[i])
    requires Level(name, canon, xs[i := y]) == Level(name, canon, xs)
    ensures canon(y) == canon(xs[i])
  {
    LevelFacts(name, canon, xs[i := y]);
    LevelFacts(name, canon, xs);
    assert xs[i := y][i] == y;
    assert canon(y) in Level(name, canon, xs);
    var j :| 0 <= j < |xs| && canon(y) == canon(xs[j]);
    assert name(canon(y)) == name(y) && name(canon(xs[j])) == name(xs[j]);
    assert j == i;
  }

  lemma LinkOrderShows(d: Document) returns (e: Document)
    requires !TieFree(LinkName, d.links)
    ensures SameUpToOrder(e, d) && Canon(e) != Canon(d)
  {
    var other := OtherOrder(LinkName, d.links);
    e := d.(links := other);
    forall i | 0 <= i < |d.collections| ensures SameCollection(d.collections[i], d.collections[i]) {
      CollectionIsItself(d.collections[i]);
    }
    InPlace((b: Collection, c: Collection) => SameCollection(b, c), d.collections, d.collections);
  }

  lemma AnnotationOrderShows(c: Collection, i: nat) returns (c': Collection)
    requires DistinctNames(FieldName, c.fields) && i < |c.fields| && !TieFree(AnnotationName, c.fields[i].annotations)
    ensures c'.name == c.name && SameCollection(c', c) && CanonCollection(c') != CanonCollection(c)
  {
    var f := c.fields[i];
    var other := OtherOrder(AnnotationName, f.annotations);
    var g := f.(annotations := other);
    c' := c.(fields := c.fields[i := g]);
    forall k | 0 <= k < |c.fields| ensures SameField(c'.fields[k], c.fields[k]) {
      FieldIsItself(c.fields[k]);
    }
    InPlace((f: Field, g: Field) => SameField(f, g), c'.fields, c.fields);
    if CanonCollection(c') == CanonCollection(c) {
      LevelShows(FieldName, CanonField, c.fields, i, g);
    }
  }

  lemma CollectionOrderShows(d: Document, i: nat) returns (e: Document)
    requires ValidDocument(d) && i < |d.collections| && !PlainCollection(d.collections[i])
    ensures SameUpToOrder(e, d) && Canon(e) != Canon(d)
  {
    var c := d.collections[i];
    assert ValidCollection(c);
    var f :| f in c.fields && !TieFree(AnnotationName, f.annotations);
    var k :| 0 <= k < |c.fields| && c.fields[k] == f;
    var c' := AnnotationOrderShows(c, k);
    e := d.(collections := d.collections[i := c']);
    forall m | 0 <= m < |d.collections| ensures SameCollection(e.collections[m], d.collections[m]) {
      CollectionIsItself(d.collections[m]);
    }
    InPlace((b: Collection, c: Collection) => SameCollection(b, c), e.collections, d.collections);
    InPlace(Identical, d.links, d.links);
    if Canon(e) == Canon(d) {
      LevelShows(CollectionName, CanonCollection, d.collections, i, c');
    }
  }

  /** The canonical form of a document that validation accepts forgets declaration order exactly when no two
      different links, and no two different annotations of a field, share a name. */
  lemma OrderIsInvisibleIff(d: Document)
    requires ValidDocument(d)
    ensures OrderIsInvisible(d) <==> Unambiguous(d)
  {
    if Unambiguous(d) {
      forall e | SameUpToOrder(e, d) ensures Canon(e) == Canon(d) {
        SameDocumentSameCanon(e, d);
      }
    } else if !TieFree(LinkName, d.links) {
      var e := LinkOrderShows(d);
    } else {
      var c :| c in d.collections && !PlainCollection(c);
      var i :| 0 <= i < |d.collections| && d.collections[i] == c;
      var e := CollectionOrderShows(d, i);
    }
  }

  lemma TiedPair(k: Link, l: Link)
    requires k.name == l.name
    ensures Level(LinkName, Same, [k, l]) == [k, l]
  {
    Tied(LinkName, k, l);
    SortFixpoint(ByName(LinkName), [k, l]);
    LevelOfSame(LinkName, [k, l]);
  }

  lemma Swapped(k: Link, l: Link)
    ensures Reordered(Identical, [l, k], [k, l])
  {
    var p: seq<nat> := [1, 0];
    assert IsPermutation(p, 2) && forall i :: 0 <= i < 2 ==> Identical([l, k][i], [k, l][p[i]]);
  }

  lemma SwappedLinks(d: Document, e: Document, k: Link, l: Link)
    requires k.name == l.name && k != l && d.links == [k, l] && e == d.(links := [l, k])
    ensures SameUpToOrder(e, d) && Canon(e) != Canon(d)
  {
    forall i | 0 <= i < |d.collections| ensures SameCollection(d.collections[i], d.collections[i]) {
      CollectionIsItself(d.collections[i]);
    }
    InPlace((b: Collection, c: Collection) => SameCollection(b, c), d.collections, d.collections);
    Swapped(k, l);
    TiedPair(k, l);
    TiedPair(l, k);
    assert [k, l][0] != [l, k][0];
  }

  /** Two documents that validation accepts and that list the same two links, both named `l`, in either order. */
  lemma SameLinksTwoForms()
    ensures var a := Collection("a", []);
      var k, l := Link("l", "a", "a", "owns", "one"), Link("l", "a", "a", "sees", "one");
      var d, e := Document(1, None, [a], [k, l]), Document(1, None, [a], [l, k]);
      ValidDocument(d) && ValidDocument(e) && SameUpToOrder(e, d) && Canon(e) != Canon(d)
  {
    var a := Collection("a", []);
    var k, l := Link("l", "a", "a", "owns", "one"), Link("l", "a", "a", "sees", "one");
    var d, e := Document(1, None, [a], [k, l]), Document(1, None, [a], [l, k]);
    SwappedLinks(d, e, k, l);
    assert a in d.collections && a in e.collections;
    assert Declared(d, "a") && Declared(e, "a");
  }
}
