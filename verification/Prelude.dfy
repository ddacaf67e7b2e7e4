/** Types and sequence facts shared by every component of the model. */
module Prelude {

  const U32_MAX := 0xFFFF_FFFF
  const U64_MAX := 0xFFFF_FFFF_FFFF_FFFF
  const I64_MAX := 0x7FFF_FFFF_FFFF_FFFF
  const I64_MIN := -0x8000_0000_0000_0000

  type u32 = x: int | 0 <= x <= 0xFFFF_FFFF
  type u64 = x: int | 0 <= x <= 0xFFFF_FFFF_FFFF_FFFF
  type i64 = x: int | -0x8000_0000_0000_0000 <= x <= 0x7FFF_FFFF_FFFF_FFFF

  datatype Option<+T> = None | Some(value: T)

  datatype Result<+T, +E> = Ok(value: T) | Err(error: E)

  /** The kinds of `ThingdError` that the modelled operations raise; messages are not modelled. */
  datatype Error = InvalidInput | Conflict | Protected

  /** `n += 1` on a u64 counter, as an optimised build executes it. */
  function Increment(n: u64): u64 {
    if n == U64_MAX then 0 else n + 1
  }

  /** Every element is related by `r` to every later one. */
  ghost predicate Pairwise<T>(r: (T, T) -> bool, s: seq<T>) {
    forall i, j :: 0 <= i < j < |s| ==> r(s[i], s[j])
  }

  function Map<A, B>(f: A -> B, s: seq<A>): (r: seq<B>)
    ensures |r| == |s|
    ensures forall i :: 0 <= i < |s| ==> r[i] == f(s[i])
  {
    seq(|s|, i requires 0 <= i < |s| => f(s[i]))
  }

  function Filter<T(!new)>(keep: T -> bool, s: seq<T>): (r: seq<T>)
    ensures |r| <= |s|
    ensures forall x :: x in r <==> x in s && keep(x)
  {
    if s == [] then [] else
      var rest := Filter(keep, s[..|s| - 1]);
      var last := s[|s| - 1];
      assert s == s[..|s| - 1] + [last];
      if keep(last) then rest + [last] else rest
  }

  lemma {:induction false} FilterPairwise<T(!new)>(keep: T -> bool, r: (T, T) -> bool, s: seq<T>)
    requires Pairwise(r, s)
    ensures Pairwise(r, Filter(keep, s))
  {
    if s != [] {
      FilterPairwise(keep, r, s[..|s| - 1]);
      var rest := Filter(keep, s[..|s| - 1]);
      forall x | x in rest ensures r(x, s[|s| - 1]) {
        var i :| 0 <= i < |s| - 1 && s[..|s| - 1][i] == x;
        assert s[i] == x;
      }
      assert forall i :: 0 <= i < |rest| ==> rest[i] in rest;
    }
  }

  lemma {:induction false} FilterAll<T(!new)>(keep: T -> bool, s: seq<T>)
    requires forall x :: x in s ==> keep(x)
    ensures Filter(keep, s) == s
  {
    if s != [] {
      assert s == s[..|s| - 1] + [s[|s| - 1]];
      FilterAll(keep, s[..|s| - 1]);
    }
  }

  lemma {:induction false} FilterConcat<T(!new)>(keep: T -> bool, s: seq<T>, t: seq<T>)
    ensures Filter(keep, s + t) == Filter(keep, s) + Filter(keep, t)
  {
    if t == [] {
      assert s + t == s;
    } else {
      assert (s + t)[..|s + t| - 1] == s + t[..|t| - 1];
      FilterConcat(keep, s, t[..|t| - 1]);
    }
  }

  /** `skip(offset).take(limit)`. */
  function Page<T>(s: seq<T>, offset: nat, limit: nat): seq<T> {
    if offset >= |s| then [] else if |s| - offset <= limit then s[offset..] else s[offset..offset + limit]
  }

  function Flatten<T>(parts: seq<seq<T>>): seq<T> {
    if parts == [] then [] else Flatten(parts[..|parts| - 1]) + parts[|parts| - 1]
  }

  lemma {:induction false} FlattenConcat<T>(a: seq<seq<T>>, b: seq<seq<T>>)
    ensures Flatten(a + b) == Flatten(a) + Flatten(b)
  {
    if b == [] {
      assert a + b == a;
    } else {
      var init, last := b[..|b| - 1], b[|b| - 1];
      FlattenConcat(a, init);
      assert (a + b)[..|a + b| - 1] == a + init && (a + b)[|a + b| - 1] == last;
      assert Flatten(a) + Flatten(init) + last == Flatten(a) + (Flatten(init) + last);
    }
  }

  /** Index of the first occurrence of `x`, or the length when there is none. */
  function Position<T(==)>(x: T, s: seq<T>): (i: nat)
    ensures i <= |s|
    ensures i < |s| ==> s[i] == x
    ensures forall j :: 0 <= j < i ==> s[j] != x
  {
    if s == [] || s[0] == x then 0 else 1 + Position(x, s[1..])
  }

  /** The pieces of `s` between separators; there is always at least one. */
  function Split<T(==)>(sep: T, s: seq<T>): (parts: seq<seq<T>>)
    ensures |parts| >= 1
    ensures forall i :: 0 <= i < |parts| ==> sep !in parts[i]
    decreases |s|
  {
    var i := Position(sep, s);
    if i == |s| then [s] else [s[..i]] + Split(sep, s[i + 1..])
  }

  /** Each line followed by a separator. */
  function Terminated<T>(sep: T, lines: seq<seq<T>>): seq<T> {
    if lines == [] then [] else lines[0] + [sep] + Terminated(sep, lines[1..])
  }

  lemma SplitFirst<T>(sep: T, line: seq<T>, rest: seq<T>)
    requires sep !in line
    ensures Split(sep, line + [sep] + rest) == [line] + Split(sep, rest)
  {
    var s := line + [sep] + rest;
    var i := Position(sep, s);
    assert s[|line|] == sep;
    assert i == |line| by {
      assert forall j :: 0 <= j < |line| ==> s[j] == line[j];
    }
    assert s[..i] == line && s[i + 1..] == rest;
  }

  lemma TerminatedFirst<T>(sep: T, line: seq<T>, lines: seq<seq<T>>, rest: seq<T>)
    ensures Terminated(sep, [line] + lines) + rest == line + [sep] + (Terminated(sep, lines) + rest)
  {
    assert ([line] + lines)[1..] == lines;
  }

  /** Splitting undoes termination, whatever unterminated rest follows. */
  lemma {:induction false} SplitOfTerminated<T>(sep: T, lines: seq<seq<T>>, rest: seq<T>)
    requires forall i :: 0 <= i < |lines| ==> sep !in lines[i]
    ensures Split(sep, Terminated(sep, lines) + rest) == lines + Split(sep, rest)
  {
    if lines == [] {
      assert Terminated(sep, lines) + rest == rest;
      assert lines + Split(sep, rest) == Split(sep, rest);
    } else {
      SplitOfTerminated(sep, lines[1..], rest);
      SplitOneMore(sep, lines[0], lines[1..], rest);
      assert lines == [lines[0]] + lines[1..];
    }
  }

  lemma SplitOneMore<T>(sep: T, line: seq<T>, more: seq<seq<T>>, rest: seq<T>)
    requires sep !in line && Split(sep, Terminated(sep, more) + rest) == more + Split(sep, rest)
    ensures Split(sep, Terminated(sep, [line] + more) + rest) == [line] + more + Split(sep, rest)
  {
    var tail := Terminated(sep, more) + rest;
    assert Terminated(sep, [line] + more) + rest == line + [sep] + tail by {
      TerminatedFirst(sep, line, more, rest);
    }
    SplitFirst(sep, line, tail);
    Regrouped([line], more, Split(sep, rest));
  }

  lemma Regrouped<T>(a: seq<T>, b: seq<T>, c: seq<T>)
    ensures a + (b + c) == a + b + c
  {
  }

  /** `s` is the pieces in order, all but the last followed by a separator. */
  ghost predicate Rebuilds<T>(sep: T, s: seq<T>, parts: seq<seq<T>>) {
    |parts| >= 1 && s == Terminated(sep, parts[..|parts| - 1]) + parts[|parts| - 1]
  }

  lemma RebuildsFirst<T>(sep: T, line: seq<T>, s: seq<T>, parts: seq<seq<T>>)
    requires Rebuilds(sep, s, parts)
    ensures Rebuilds(sep, line + [sep] + s, [line] + parts)
  {
    var all := [line] + parts;
    assert all[..|all| - 1] == [line] + parts[..|parts| - 1];
    TerminatedFirst(sep, line, parts[..|parts| - 1], parts[|parts| - 1]);
  }

  /** Splitting loses nothing. */
  lemma {:induction false} SplitRebuilds<T>(sep: T, s: seq<T>)
    ensures Rebuilds(sep, s, Split(sep, s))
    decreases |s|
  {
    var i := Position(sep, s);
    if i < |s| {
      SplitRebuilds(sep, s[i + 1..]);
      RebuildsFirst(sep, s[..i], s[i + 1..], Split(sep, s[i + 1..]));
      assert s == s[..i] + [sep] + s[i + 1..];
    } else {
      assert [s][..0] == [];
    }
  }
}
