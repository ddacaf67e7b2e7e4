/** String order, the stable sort behind `sort_by`, and ordered enumeration of a key set. */
module Ordering {
  import opened Prelude

  // ---------------------------------------------------------------- strings

  datatype Order = Less | Equal | Greater

  function Flip(o: Order): Order {
    match o case Less => Greater case Equal => Equal case Greater => Less
  }

  /** Lexicographic comparison by code point, which is also UTF-8 byte order. */
  function StrCmp(a: string, b: string): Order {
    if a == [] then (if b == [] then Equal else Less)
    else if b == [] then Greater
    else if a[0] < b[0] then Less
    else if a[0] > b[0] then Greater
    else StrCmp(a[1..], b[1..])
  }

  predicate StrLeq(a: string, b: string) {
    StrCmp(a, b) != Greater
  }

  lemma {:induction false} StrCmpFlip(a: string, b: string)
    ensures StrCmp(b, a) == Flip(StrCmp(a, b))
  {
    if a != [] && b != [] && a[0] == b[0] {
      StrCmpFlip(a[1..], b[1..]);
    }
  }

  lemma {:induction false} StrCmpEqual(a: string, b: string)
    ensures StrCmp(a, b) == Equal <==> a == b
  {
    if a != [] && b != [] && a[0] == b[0] {
      StrCmpEqual(a[1..], b[1..]);
      assert a == [a[0]] + a[1..] && b == [b[0]] + b[1..];
    }
  }

  lemma {:induction false} StrLeqTransitive(a: string, b: string, c: string)
    requires StrLeq(a, b) && StrLeq(b, c)
    ensures StrLeq(a, c)
  {
    if a != [] && b != [] && c != [] && a[0] == b[0] == c[0] {
      StrLeqTransitive(a[1..], b[1..], c[1..]);
    }
  }

  // ------------------------------------------------------------ stable sort

  ghost predicate TotalPreorder<T(!new)>(leq: (T, T) -> bool) {
    && (forall x, y :: leq(x, y) || leq(y, x))
    && (forall x, y, z :: leq(x, y) && leq(y, z) ==> leq(x, z))
  }

  lemma StrLeqTotal()
    ensures TotalPreorder(StrLeq)
    ensures forall a, b :: StrLeq(a, b) && StrLeq(b, a) ==> a == b
  {
    forall a, b ensures StrLeq(a, b) || StrLeq(b, a)
      ensures StrLeq(a, b) && StrLeq(b, a) ==> a == b
    {
      StrCmpFlip(a, b);
      StrCmpEqual(a, b);
    }
    forall a, b, c | StrLeq(a, b) && StrLeq(b, c) ensures StrLeq(a, c) {
      StrLeqTransitive(a, b, c);
    }
  }

  /** Put `x` in front of the first element it may precede. */
  function Insert<T>(leq: (T, T) -> bool, x: T, s: seq<T>): seq<T> {
    if s == [] then [x]
    else if leq(x, s[0]) then [x] + s
    else [s[0]] + Insert(leq, x, s[1..])
  }

  /** The stable sort of `s` by `leq`. */
  function Sort<T>(leq: (T, T) -> bool, s: seq<T>): seq<T> {
    if s == [] then [] else Insert(leq, s[0], Sort(leq, s[1..]))
  }

  lemma {:induction false} InsertPermutes<T>(leq: (T, T) -> bool, x: T, s: seq<T>)
    ensures multiset(Insert(leq, x, s)) == multiset{x} + multiset(s)
  {
    if s != [] && !leq(x, s[0]) {
      InsertPermutes(leq, x, s[1..]);
      assert s == [s[0]] + s[1..];
    }
  }

  /** Sorting neither loses, invents nor duplicates elements. */
  lemma {:induction false} SortPermutes<T(!new)>(leq: (T, T) -> bool, s: seq<T>)
    ensures multiset(Sort(leq, s)) == multiset(s)
    ensures |Sort(leq, s)| == |s|
    ensures forall x :: x in Sort(leq, s) <==> x in s
  {
    if s != [] {
      assert s == [s[0]] + s[1..];
      SortPermutes(leq, s[1..]);
      InsertPermutes(leq, s[0], Sort(leq, s[1..]));
    }
    assert |multiset(Sort(leq, s))| == |multiset(s)|;
    forall x ensures x in Sort(leq, s) <==> x in s {
      assert x in Sort(leq, s) <==> x in multiset(Sort(leq, s));
      assert x in s <==> x in multiset(s);
    }
  }

  lemma {:induction false} InsertPairwise<T(!new)>(leq: (T, T) -> bool, r: (T, T) -> bool, x: T, s: seq<T>)
    requires TotalPreorder(leq) && Pairwise(leq, s) && Pairwise(r, s)
    requires forall e :: e in s ==> if leq(x, e) then r(x, e) else r(e, x)
    ensures Pairwise(r, Insert(leq, x, s))
  {
    if s != [] {
      if leq(x, s[0]) {
        forall e | e in s ensures leq(x, e) {
          var i :| 0 <= i < |s| && s[i] == e;
        }
      } else {
        InsertPairwise(leq, r, x, s[1..]);
        InsertPermutes(leq, x, s[1..]);
        var t := Insert(leq, x, s[1..]);
        forall e | e in t ensures r(s[0], e) {
          assert e in multiset(t);
          assert e == x || e in s[1..];
        }
      }
    }
  }

  /** What a stable sort by `leq` must keep: `r` holds of each pair once the pair is put in order,
      where a pair already in order is not swapped. */
  ghost predicate Respects<T>(leq: (T, T) -> bool, r: (T, T) -> bool, s: seq<T>) {
    Pairwise((a, b) => if leq(a, b) then r(a, b) else r(b, a), s)
  }

  lemma {:induction false} SortPairwiseBoth<T(!new)>(leq: (T, T) -> bool, r: (T, T) -> bool, s: seq<T>)
    requires TotalPreorder(leq) && Respects(leq, r, s)
    ensures Pairwise(leq, Sort(leq, s)) && Pairwise(r, Sort(leq, s))
  {
    if s != [] {
      var rest := s[1..];
      forall i, j | 0 <= i < j < |rest|
        ensures if leq(rest[i], rest[j]) then r(rest[i], rest[j]) else r(rest[j], rest[i])
      {
        assert rest[i] == s[i + 1] && rest[j] == s[j + 1];
      }
      SortPairwiseBoth(leq, r, rest);
      SortPermutes(leq, rest);
      forall e | e in rest ensures if leq(s[0], e) then r(s[0], e) else r(e, s[0]) {
        var i :| 0 <= i < |rest| && rest[i] == e;
        assert s[i + 1] == e;
      }
      InsertPairwise(leq, leq, s[0], Sort(leq, rest));
      InsertPairwise(leq, r, s[0], Sort(leq, rest));
    }
  }

  /** The result is ordered by `leq`, and any relation that holds between each element and the later
      elements it ties with still holds: ties keep their relative order. */
  lemma SortIsStable<T(!new)>(leq: (T, T) -> bool, r: (T, T) -> bool, s: seq<T>)
    requires TotalPreorder(leq)
    requires Pairwise((a, b) => leq(a, b) && leq(b, a) ==> r(a, b), s)
    ensures Pairwise(leq, Sort(leq, s))
    ensures Pairwise((a, b) => leq(a, b) && leq(b, a) ==> r(a, b), Sort(leq, s))
  {
    SortPairwiseBoth(leq, (a, b) => leq(a, b) && leq(b, a) ==> r(a, b), s);
  }

  lemma {:induction false} SortFixpoint<T>(leq: (T, T) -> bool, s: seq<T>)
    requires Pairwise(leq, s)
    ensures Sort(leq, s) == s
  {
    if s != [] {
      SortFixpoint(leq, s[1..]);
      assert s == [s[0]] + s[1..];
    }
  }

  /** An order that never ties on distinct elements leaves one arrangement of a multiset. */
  lemma {:induction false} SortedUnique<T>(leq: (T, T) -> bool, a: seq<T>, b: seq<T>)
    requires Pairwise(leq, a) && Pairwise(leq, b) && multiset(a) == multiset(b)
    requires forall x, y :: x in a && y in a && leq(x, y) && leq(y, x) ==> x == y
    ensures a == b
  {
    assert |multiset(a)| == |multiset(b)|;
    if a != [] {
      SameFirst(leq, a, b);
      assert multiset(a[1..]) == multiset(b[1..]) by {
        TailMultiset(a);
        TailMultiset(b);
      }
      TailPairwise(leq, a);
      TailPairwise(leq, b);
      SortedUnique(leq, a[1..], b[1..]);
      assert a == [a[0]] + a[1..] && b == [b[0]] + b[1..];
    }
  }

  lemma TailPairwise<T>(r: (T, T) -> bool, s: seq<T>)
    requires s != [] && Pairwise(r, s)
    ensures Pairwise(r, s[1..]) && forall x :: x in s[1..] ==> x in s
  {
    forall i, j | 0 <= i < j < |s[1..]| ensures r(s[1..][i], s[1..][j]) {
      assert r(s[i + 1], s[j + 1]);
    }
  }

  lemma SameFirst<T>(leq: (T, T) -> bool, a: seq<T>, b: seq<T>)
    requires Pairwise(leq, a) && Pairwise(leq, b) && multiset(a) == multiset(b) && a != [] && b != []
    requires forall x, y :: x in a && y in a && leq(x, y) && leq(y, x) ==> x == y
    ensures a[0] == b[0]
  {
    assert a[0] in multiset(a) && b[0] in multiset(b);
    var i :| 0 <= i < |a| && a[i] == b[0];
    var j :| 0 <= j < |b| && b[j] == a[0];
    assert i == 0 || leq(a[0], a[i]);
    assert j == 0 || leq(b[0], b[j]);
  }

  lemma TailMultiset<T>(s: seq<T>)
    requires s != []
    ensures multiset(s[1..]) == multiset(s) - multiset{s[0]}
  {
    assert s == [s[0]] + s[1..];
  }

  lemma {:induction false} InsertPosition<T>(leq: (T, T) -> bool, x: T, s: seq<T>) returns (k: nat)
    ensures k < |Insert(leq, x, s)| && Insert(leq, x, s)[k] == x
    ensures forall m :: 0 <= m < k ==> !leq(x, Insert(leq, x, s)[m])
  {
    if s == [] || leq(x, s[0]) {
      k := 0;
    } else {
      k := InsertPosition(leq, x, s[1..]);
      k := k + 1;
    }
  }

  /** Of two tied elements, the one that stands first in the input stands first in the output. */
  lemma TiesAreVisible<T(!new)>(leq: (T, T) -> bool, a: T, s: seq<T>, b: T, t: seq<T>)
    requires leq(a, b) && leq(b, a) && Sort(leq, [a] + s) == Sort(leq, [b] + t)
    ensures a == b
  {
    assert ([a] + s)[1..] == s && ([b] + t)[1..] == t;
    var i := InsertPosition(leq, a, Sort(leq, s));
    var j := InsertPosition(leq, b, Sort(leq, t));
    assert i <= j && j <= i;
  }

  lemma MoveToFront<T>(s: seq<T>, i: nat)
    requires i < |s|
    ensures multiset([s[i]] + (s[..i] + s[i + 1..])) == multiset(s)
  {
    assert s == s[..i] + [s[i]] + s[i + 1..];
  }

  /** Sorting forgets the order of its input when the order ties no two different elements of it. */
  lemma NoTiesOneOrder<T(!new)>(leq: (T, T) -> bool, s: seq<T>, t: seq<T>)
    requires TotalPreorder(leq) && multiset(t) == multiset(s)
    requires forall x, y :: x in s && y in s && leq(x, y) && leq(y, x) ==> x == y
    ensures Sort(leq, t) == Sort(leq, s)
  {
    SortedPermutation(leq, s);
    SortedPermutation(leq, t);
    SortedUnique(leq, Sort(leq, s), Sort(leq, t));
  }

  /** Otherwise some rearrangement of the input sorts differently. */
  lemma TieShows<T(!new)>(leq: (T, T) -> bool, s: seq<T>, i: nat, j: nat) returns (t: seq<T>)
    requires i < |s| && j < |s| && leq(s[i], s[j]) && leq(s[j], s[i]) && s[i] != s[j]
    ensures multiset(t) == multiset(s) && Sort(leq, t) != Sort(leq, s)
  {
    var a, b := s[..i] + s[i + 1..], s[..j] + s[j + 1..];
    MoveToFront(s, i);
    MoveToFront(s, j);
    t := [s[i]] + a;
    if Sort(leq, t) == Sort(leq, s) {
      t := [s[j]] + b;
      if Sort(leq, t) == Sort(leq, s) {
        TiesAreVisible(leq, s[i], a, s[j], b);
      }
    }
  }

  lemma SortedPermutation<T(!new)>(leq: (T, T) -> bool, s: seq<T>)
    requires TotalPreorder(leq)
    ensures Pairwise(leq, Sort(leq, s)) && multiset(Sort(leq, s)) == multiset(s)
    ensures forall x :: x in Sort(leq, s) <==> x in s
  {
    SortPermutes(leq, s);
    SortPairwiseBoth(leq, leq, s);
  }

  // ----------------------------------------------------------- permutations

  ghost predicate IsPermutation(p: seq<nat>, n: nat) {
    && |p| == n
    && (forall i :: 0 <= i < n ==> p[i] < n)
    && (forall i, j :: 0 <= i < j < n ==> p[i] != p[j])
  }

  /** The element at `i` of the one is the element at `p[i]` of the other. */
  ghost predicate Maps<T>(p: seq<nat>, a: seq<T>, b: seq<T>) {
    |a| == |b| && IsPermutation(p, |a|) && forall i :: 0 <= i < |a| ==> a[i] == b[p[i]]
  }

  function RemoveAt<T>(s: seq<T>, j: nat): (r: seq<T>)
    requires j < |s|
    ensures |r| == |s| - 1 && forall i :: 0 <= i < |r| ==> r[i] == s[if i < j then i else i + 1]
  {
    s[..j] + s[j + 1..]
  }

  lemma RemoveOneAt<T>(s: seq<T>, j: nat)
    requires j < |s|
    ensures multiset(RemoveAt(s, j)) == multiset(s) - multiset{s[j]}
    ensures multiset(s) == multiset(RemoveAt(s, j)) + multiset{s[j]}
  {
    var before, after := s[..j], s[j + 1..];
    assert s == before + [s[j]] + after;
    assert multiset(s) == multiset(before) + multiset{s[j]} + multiset(after);
    assert multiset(before + after) == multiset(before) + multiset(after);
  }

  lemma ExtendPermutation<T>(q: seq<nat>, a: seq<T>, b: seq<T>, j: nat) returns (p: seq<nat>)
    requires |a| == |b| && a != [] && j < |b| && b[j] == a[|a| - 1] && Maps(q, RemoveAt(a, |a| - 1), RemoveAt(b, j))
    ensures Maps(p, a, b)
  {
    var n := |a| - 1;
    p := seq(n, i requires 0 <= i < n => if q[i] < j then q[i] else q[i] + 1) + [j];
    forall i | 0 <= i < n ensures a[i] == b[p[i]] {
      assert RemoveAt(a, n)[i] == RemoveAt(b, j)[q[i]];
    }
  }

  /** Lists with the same elements are permutations of each other. */
  lemma {:induction false} FindPermutation<T>(a: seq<T>, b: seq<T>) returns (p: seq<nat>)
    requires multiset(a) == multiset(b)
    ensures Maps(p, a, b)
    decreases |a|
  {
    assert |multiset(a)| == |multiset(b)|;
    if a == [] {
      p := [];
    } else {
      assert a[|a| - 1] in multiset(b);
      var j :| 0 <= j < |b| && b[j] == a[|a| - 1];
      RemoveOneAt(a, |a| - 1);
      RemoveOneAt(b, j);
      var q := FindPermutation(RemoveAt(a, |a| - 1), RemoveAt(b, j));
      p := ExtendPermutation(q, a, b, j);
    }
  }

  lemma ShrinkPermutation<T>(p: seq<nat>, a: seq<T>, b: seq<T>) returns (q: seq<nat>)
    requires Maps(p, a, b) && a != []
    ensures p[|a| - 1] < |b| && Maps(q, RemoveAt(a, |a| - 1), RemoveAt(b, p[|a| - 1]))
  {
    var n, j := |a| - 1, p[|a| - 1];
    q := seq(n, i requires 0 <= i < n => if p[i] < j then p[i] else if p[i] > 0 then p[i] - 1 else 0);
    forall i | 0 <= i < n ensures p[i] != j && RemoveAt(a, n)[i] == RemoveAt(b, j)[q[i]] {
      assert RemoveAt(a, n)[i] == a[i];
    }
  }

  /** And conversely. */
  lemma {:induction false} PermutedMultiset<T>(p: seq<nat>, a: seq<T>, b: seq<T>)
    requires Maps(p, a, b)
    ensures multiset(a) == multiset(b)
    decreases |a|
  {
    if a != [] {
      var q := ShrinkPermutation(p, a, b);
      PermutedMultiset(q, RemoveAt(a, |a| - 1), RemoveAt(b, p[|a| - 1]));
      RemoveOneAt(a, |a| - 1);
      RemoveOneAt(b, p[|a| - 1]);
    }
  }

  // ------------------------------------------------- ordered map keys

  lemma {:induction false} LeastExists(s: set<string>)
    requires s != {}
    ensures exists x :: x in s && forall y :: y in s ==> StrLeq(x, y)
    decreases |s|
  {
    StrLeqTotal();
    var x :| x in s;
    if s == {x} {
      assert forall y :: y in s ==> StrLeq(x, y);
    } else {
      assert s - {x} != {};
      LeastExists(s - {x});
      var m :| m in s - {x} && forall y :: y in s - {x} ==> StrLeq(m, y);
      var least := if StrLeq(x, m) then x else m;
      forall y | y in s ensures StrLeq(least, y) {
        assert y == x || y in s - {x};
      }
    }
  }

  function Least(s: set<string>): (x: string)
    requires s != {}
    ensures x in s
    ensures forall y :: y in s ==> StrLeq(x, y)
  {
    LeastExists(s);
    StrLeqTotal();
    var x :| x in s && forall y :: y in s ==> StrLeq(x, y);
    x
  }

  /** The keys of an ordered map, in the order the map yields them. */
  function Ascending(s: set<string>): (r: seq<string>)
    ensures |r| == |s|
    ensures forall x :: x in r <==> x in s
    decreases |s|
  {
    if s == {} then [] else [Least(s)] + Ascending(s - {Least(s)})
  }

  predicate StrLess(a: string, b: string) {
    StrCmp(a, b) == Less
  }

  lemma {:induction false} AscendingIsStrict(s: set<string>)
    ensures Pairwise(StrLess, Ascending(s))
    decreases |s|
  {
    if s != {} {
      var x := Least(s);
      AscendingIsStrict(s - {x});
      forall y | y in Ascending(s - {x}) ensures StrLess(x, y) {
        StrCmpEqual(x, y);
      }
    }
  }
}
