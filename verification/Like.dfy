/** The `$like` pattern match: segments between percent signs, found greedily from the left. */
module Like {
  import opened Prelude

  /** `part` stands in `s` at position `i`. */
  predicate MatchesAt(s: string, part: string, i: nat) {
    i + |part| <= |s| && s[i..i + |part|] == part
  }

  /** `str::find`: the leftmost position of `part` at or after `from`. */
  function LeftmostFrom(s: string, part: string, from: nat): (r: Option<nat>)
    ensures r.Some? ==> from <= r.value && MatchesAt(s, part, r.value)
    ensures forall i: nat :: from <= i && MatchesAt(s, part, i) ==> r.Some? && r.value <= i
    decreases |s| - from
  {
    if from + |part| > |s| then None
    else if MatchesAt(s, part, from) then Some(from)
    else if from == |s| then None
    else LeftmostFrom(s, part, from + 1)
  }

  function Leftmost(s: string, part: string): Option<nat> {
    LeftmostFrom(s, part, 0)
  }

  predicate NonEmpty(part: string) {
    part != ""
  }

  /** The non-empty segments of a pattern. */
  function Segments(pattern: string): seq<string> {
    Filter(NonEmpty, Split('%', pattern))
  }

  /** gap 0, part 0, gap 1, part 1, ..., last gap. */
  function Weave(gaps: seq<string>, parts: seq<string>): string
    requires |gaps| == |parts| + 1
  {
    if parts == [] then gaps[0] else gaps[0] + parts[0] + Weave(gaps[1..], parts[1..])
  }

  /** The string is the parts in order, without overlap, with anything before, between and after them. */
  ghost predicate Decomposes(s: string, parts: seq<string>) {
    exists gaps :: WovenWith(s, gaps, parts)
  }

  predicate WovenWith(s: string, gaps: seq<string>, parts: seq<string>) {
    |gaps| == |parts| + 1 && s == Weave(gaps, parts)
  }

  lemma WeaveWider(before: string, gaps: seq<string>, parts: seq<string>)
    requires |gaps| == |parts| + 1
    ensures Weave([before + gaps[0]] + gaps[1..], parts) == before + Weave(gaps, parts)
  {
    var wider := [before + gaps[0]] + gaps[1..];
    assert wider[1..] == gaps[1..];
    if parts != [] {
      assert before + (gaps[0] + parts[0] + Weave(gaps[1..], parts[1..]))
          == before + gaps[0] + parts[0] + Weave(gaps[1..], parts[1..]);
    }
  }

  lemma DecomposesLater(s: string, parts: seq<string>, n: nat)
    requires n <= |s| && Decomposes(s[n..], parts)
    ensures Decomposes(s, parts)
  {
    var gaps :| WovenWith(s[n..], gaps, parts);
    WeaveWider(s[..n], gaps, parts);
    assert s == s[..n] + s[n..];
    assert WovenWith(s, [s[..n] + gaps[0]] + gaps[1..], parts);
  }

  lemma GreedyFinds(s: string, parts: seq<string>)
    requires parts != [] && Decomposes(s, parts)
    ensures var at := Leftmost(s, parts[0]);
      at.Some? && Decomposes(s[at.value + |parts[0]|..], parts[1..])
  {
    var part, at := parts[0], Leftmost(s, parts[0]);
    var gaps :| WovenWith(s, gaps, parts);
    var i, rest := |gaps[0]|, Weave(gaps[1..], parts[1..]);
    assert s == gaps[0] + part + rest;
    assert s[i..i + |part|] == part && s[i + |part|..] == rest;
    assert MatchesAt(s, part, i);
    var suffix := s[at.value + |part|..];
    assert suffix[i - at.value..] == rest;
    assert WovenWith(rest, gaps[1..], parts[1..]);
    assert Decomposes(rest, parts[1..]);
    DecomposesLater(suffix, parts[1..], i - at.value);
  }

  lemma GreedySound(s: string, parts: seq<string>, at: nat)
    requires parts != [] && MatchesAt(s, parts[0], at) && Decomposes(s[at + |parts[0]|..], parts[1..])
    ensures Decomposes(s, parts)
  {
    var part, suffix := parts[0], s[at + |parts[0]|..];
    var gaps :| WovenWith(suffix, gaps, parts[1..]);
    var wider := [s[..at]] + gaps;
    assert wider[1..] == gaps;
    assert s == s[..at] + part + suffix;
    assert WovenWith(s, wider, parts);
  }

  /** Taking the first part at its leftmost place never spoils a match of the rest. */
  lemma GreedyStep(s: string, parts: seq<string>)
    requires parts != []
    ensures var at := Leftmost(s, parts[0]);
      Decomposes(s, parts) <==> at.Some? && Decomposes(s[at.value + |parts[0]|..], parts[1..])
  {
    var at := Leftmost(s, parts[0]);
    if Decomposes(s, parts) {
      GreedyFinds(s, parts);
    } else if at.Some? && Decomposes(s[at.value + |parts[0]|..], parts[1..]) {
      GreedySound(s, parts, at.value);
    }
  }

  lemma NothingLeft(s: string)
    ensures Decomposes(s, [])
  {
    assert WovenWith(s, [s], []);
  }

  /** The non-empty parts from the k-th on. */
  function Remaining(parts: seq<string>, k: nat): seq<string>
    requires k <= |parts|
  {
    Filter(NonEmpty, parts[k..])
  }

  lemma RemainingNext(parts: seq<string>, k: nat)
    requires k < |parts|
    ensures Remaining(parts, k) == (if parts[k] == "" then [] else [parts[k]]) + Remaining(parts, k + 1)
  {
    assert parts[k..] == [parts[k]] + parts[k + 1..];
    FilterConcat(NonEmpty, [parts[k]], parts[k + 1..]);
    assert [parts[k]][..0] == [];
    assert Filter(NonEmpty, [parts[k]]) == if parts[k] == "" then [] else [parts[k]];
  }

  /** The rest of the string decomposes along the rest of the pattern. */
  ghost predicate RestMatches(s: string, pos: nat, parts: seq<string>, k: nat)
    requires pos <= |s| && k <= |parts|
  {
    Decomposes(s[pos..], Remaining(parts, k))
  }

  lemma ScanFirst(s: string, pattern: string)
    ensures RestMatches(s, 0, Split('%', pattern), 0) <==> Decomposes(s, Segments(pattern))
  {
    var parts := Split('%', pattern);
    assert parts[0..] == parts && s[0..] == s;
  }

  /** What is left to match after one part of the pattern. */
  lemma ScanOne(s: string, pos: nat, parts: seq<string>, k: nat)
    requires pos <= |s| && k < |parts|
    ensures var at := Leftmost(s[pos..], parts[k]);
      if parts[k] == "" then RestMatches(s, pos, parts, k) <==> RestMatches(s, pos, parts, k + 1)
      else if at.None? then !RestMatches(s, pos, parts, k)
      else var next := pos + at.value + |parts[k]|;
           next <= |s| && (RestMatches(s, pos, parts, k) <==> RestMatches(s, next, parts, k + 1))
  {
    RemainingNext(parts, k);
    var left := Remaining(parts, k);
    if parts[k] == "" {
      assert left == Remaining(parts, k + 1);
    } else {
      assert left[0] == parts[k] && left[1..] == Remaining(parts, k + 1);
      GreedyStep(s[pos..], left);
      var at := Leftmost(s[pos..], parts[k]);
      if at.Some? {
        assert s[pos..][at.value + |parts[k]|..] == s[pos + at.value + |parts[k]|..];
      }
    }
  }

  lemma ScanLast(s: string, pos: nat, parts: seq<string>)
    requires pos <= |s|
    ensures RestMatches(s, pos, parts, |parts|)
  {
    assert parts[|parts|..] == [];
    NothingLeft(s[pos..]);
  }

  /** The greedy scan accepts exactly the strings that decompose along the pattern: it never misses a match. An
      underscore is an ordinary character, and the match is not anchored at either end. */
  method LikeMatch(s: string, pattern: string) returns (matched: bool)
    ensures matched <==> Decomposes(s, Segments(pattern))
  {
    var parts := Split('%', pattern);
    var pos := 0;
    ScanFirst(s, pattern);
    for k := 0 to |parts|
      invariant 0 <= pos <= |s|
      invariant Decomposes(s, Segments(pattern)) <==> RestMatches(s, pos, parts, k)
    {
      ScanOne(s, pos, parts, k);
      var part := parts[k];
      if part == "" {
        continue;
      }
      var at := Leftmost(s[pos..], part);
      if at.None? {
        return false;
      }
      pos := pos + at.value + |part|;
    }
    ScanLast(s, pos, parts);
    matched := true;
  }
}
