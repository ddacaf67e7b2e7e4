/** The `$like` scan against SQL's LIKE: what it computes in those terms, and for which patterns the two agree. */
module SqlLike {
  import opened Prelude
  import opened Like

  /** The pattern covers the whole string: a percent sign stands for any text and, when `single`, an underscore for
      any one character. */
  predicate Covers(single: bool, s: string, p: string)
    decreases |p|, |s|
  {
    if p == "" then s == ""
    else if p[0] == '%' then Covers(single, s, p[1..]) || (s != "" && Covers(single, s[1..], p))
    else s != "" && (p[0] == s[0] || (single && p[0] == '_')) && Covers(single, s[1..], p[1..])
  }

  predicate IsLike(s: string, p: string) {
    Covers(true, s, p)
  }

  // ------------------------------------------ the scan as a SQL pattern

  lemma {:induction false} PercentTakes(single: bool, s: string, p: string, n: nat)
    requires p != "" && p[0] == '%' && n <= |s| && (Covers(single, s[n..], p) || Covers(single, s[n..], p[1..]))
    ensures Covers(single, s, p)
    decreases n
  {
    if n == 0 {
      assert s[0..] == s;
    } else {
      assert s[1..][n - 1..] == s[n..];
      PercentTakes(single, s[1..], p, n - 1);
    }
  }

  lemma {:induction false} PercentTook(single: bool, s: string, p: string) returns (n: nat)
    requires p != "" && p[0] == '%' && Covers(single, s, p)
    ensures n <= |s| && Covers(single, s[n..], p[1..])
    decreases |s|
  {
    if Covers(single, s, p[1..]) {
      n := 0;
      assert s[0..] == s;
    } else {
      n := PercentTook(single, s[1..], p);
      assert s[1..][n..] == s[n + 1..];
      n := n + 1;
    }
  }

  /** A second percent sign in front adds nothing. */
  lemma PercentTwice(single: bool, s: string, p: string)
    requires p != "" && p[0] == '%'
    ensures Covers(single, s, "%" + p) <==> Covers(single, s, p)
  {
    assert ("%" + p)[1..] == p;
    if Covers(single, s, "%" + p) {
      var n := PercentTook(single, s, "%" + p);
      PercentTakes(single, s, p, n);
    }
  }

  lemma {:induction false} LiteralFirst(s: string, part: string, p: string)
    requires '%' !in part
    ensures Covers(false, s, part + p) <==> MatchesAt(s, part, 0) && Covers(false, s[|part|..], p)
  {
    if part == "" {
      assert part + p == p && s[0..] == s;
    } else {
      var rest := part[1..];
      assert part == [part[0]] + rest;
      assert (part + p)[0] == part[0] && (part + p)[1..] == rest + p;
      if s != "" {
        LiteralFirst(s[1..], rest, p);
        assert s == [s[0]] + s[1..];
        if |part| <= |s| {
          assert s[1..][|rest|..] == s[|part|..];
          assert s[..|part|] == [s[0]] + s[1..][..|rest|];
        }
      }
    }
  }

  /** A part between percent signs is found somewhere, and the rest of the pattern matches behind it. */
  lemma PartFound(s: string, part: string, p: string)
    requires '%' !in part
    ensures Covers(false, s, "%" + part + p) <==>
            exists n: nat :: MatchesAt(s, part, n) && Covers(false, s[n + |part|..], p)
  {
    var pattern := "%" + part + p;
    assert pattern[1..] == part + p;
    if Covers(false, s, pattern) {
      var n := PercentTook(false, s, pattern);
      LiteralFirst(s[n..], part, p);
      assert s[n..][|part|..] == s[n + |part|..] && s[n..][..|part|] == s[n..n + |part|];
      assert MatchesAt(s, part, n);
    }
    if n: nat :| MatchesAt(s, part, n) && Covers(false, s[n + |part|..], p) {
      assert s[n..][|part|..] == s[n + |part|..] && s[n..][..|part|] == s[n..n + |part|];
      LiteralFirst(s[n..], part, p);
      PercentTakes(false, s, pattern, n);
    }
  }

  lemma FoundDecomposes(s: string, part: string, rest: seq<string>)
    ensures Decomposes(s, [part] + rest) <==>
            exists n: nat :: MatchesAt(s, part, n) && Decomposes(s[n + |part|..], rest)
  {
    var parts := [part] + rest;
    assert parts[1..] == rest;
    if Decomposes(s, parts) {
      GreedyFinds(s, parts);
      assert MatchesAt(s, part, Leftmost(s, part).value);
    }
    if n: nat :| MatchesAt(s, part, n) && Decomposes(s[n + |part|..], rest) {
      GreedySound(s, parts, n);
    }
  }

  /** The parts with a percent sign before, between and behind them. */
  function Between(parts: seq<string>): string {
    "%" + Terminated('%', parts)
  }

  lemma BetweenFirst(parts: seq<string>)
    requires parts != []
    ensures Between(parts) == "%" + parts[0] + Between(parts[1..])
  {
    assert Terminated('%', parts) == parts[0] + "%" + Terminated('%', parts[1..]);
  }

  lemma NonEmptyFirst(parts: seq<string>)
    requires parts != []
    ensures Filter(NonEmpty, parts) == if parts[0] == "" then Filter(NonEmpty, parts[1..])
                                       else [parts[0]] + Filter(NonEmpty, parts[1..])
  {
    RemainingNext(parts, 0);
    assert parts[0..] == parts;
    assert [] + Filter(NonEmpty, parts[1..]) == Filter(NonEmpty, parts[1..]);
  }

  ghost predicate Agrees(s: string, parts: seq<string>) {
    Covers(false, s, Between(parts)) <==> Decomposes(s, Filter(NonEmpty, parts))
  }

  lemma NoPart(s: string)
    ensures Agrees(s, [])
  {
    NothingLeft(s);
    assert s[|s|..] == "" && Between([])[1..] == "";
    PercentTakes(false, s, Between([]), |s|);
  }

  lemma SameVerdict(s: string, parts: seq<string>, rest: seq<string>)
    requires parts != [] && parts[0] == "" && rest == parts[1..] && Agrees(s, rest)
    requires Covers(false, s, Between(parts)) <==> Covers(false, s, Between(rest))
    ensures Agrees(s, parts)
  {
    NonEmptyFirst(parts);
  }

  lemma EmptyPart(s: string, parts: seq<string>)
    requires parts != [] && parts[0] == "" && Agrees(s, parts[1..])
    ensures Agrees(s, parts)
  {
    var p := Between(parts[1..]);
    assert Between(parts) == "%" + p by {
      BetweenFirst(parts);
    }
    PercentTwice(false, s, p);
    SameVerdict(s, parts, parts[1..]);
  }

  lemma OnePart(s: string, parts: seq<string>)
    requires parts != [] && parts[0] != "" && '%' !in parts[0] && forall t :: Agrees(t, parts[1..])
    ensures Agrees(s, parts)
  {
    var part, p, rest := parts[0], Between(parts[1..]), Filter(NonEmpty, parts[1..]);
    BetweenFirst(parts);
    NonEmptyFirst(parts);
    PartFound(s, part, p);
    forall n: nat | MatchesAt(s, part, n)
      ensures Covers(false, s[n + |part|..], p) <==> Decomposes(s[n + |part|..], rest)
    {
      assert Agrees(s[n + |part|..], parts[1..]);
    }
    FoundDecomposes(s, part, rest);
  }

  lemma {:induction false} PartsCover(s: string, parts: seq<string>)
    requires forall i :: 0 <= i < |parts| ==> '%' !in parts[i]
    ensures Agrees(s, parts)
    decreases |parts|
  {
    if parts == [] {
      NoPart(s);
    } else if parts[0] == "" {
      PartsCover(s, parts[1..]);
      EmptyPart(s, parts);
    } else {
      forall t ensures Agrees(t, parts[1..]) {
        PartsCover(t, parts[1..]);
      }
      OnePart(s, parts);
    }
  }

  /** What the scan computes, for every string and pattern: SQL's LIKE with a percent sign added at both ends and
      underscores taken as they are. */
  lemma ScanIsWrappedLike(s: string, p: string)
    ensures Decomposes(s, Segments(p)) <==> Covers(false, s, "%" + p + "%")
  {
    var parts := Split('%', p);
    SplitRebuilds('%', p);
    TerminatedLast('%', parts);
    assert "%" + p + "%" == Between(parts);
    PartsCover(s, parts);
  }

  lemma {:induction false} TerminatedLast(sep: char, parts: seq<string>)
    requires parts != []
    ensures Terminated(sep, parts) == Terminated(sep, parts[..|parts| - 1]) + parts[|parts| - 1] + [sep]
  {
    if |parts| == 1 {
      assert parts[..0] == [] && parts[1..] == [];
    } else {
      var rest := parts[1..];
      TerminatedLast(sep, rest);
      assert parts[..|parts| - 1] == [parts[0]] + rest[..|rest| - 1];
      TerminatedFirst(sep, parts[0], rest[..|rest| - 1], rest[|rest| - 1]);
    }
  }

  // ------------------------------------------ when it is SQL's LIKE

  /** The patterns for which the scan is SQL's LIKE. */
  predicate Delimited(p: string) {
    '_' !in p && p != "" && p[0] == '%' && p[|p| - 1] == '%'
  }

  lemma {:induction false} OrdinaryCharacters(s: string, p: string)
    requires '_' !in p
    ensures Covers(true, s, p) <==> Covers(false, s, p)
    decreases |p|, |s|
  {
    if p != "" {
      OrdinaryCharacters(s, p[1..]);
      if s != "" {
        OrdinaryCharacters(s[1..], p[1..]);
        OrdinaryCharacters(s[1..], p);
      }
    }
  }

  /** A second percent sign behind adds nothing. */
  lemma {:induction false} PercentTwiceBehind(single: bool, s: string, p: string)
    requires p != "" && p[|p| - 1] == '%'
    ensures Covers(single, s, p + "%") <==> Covers(single, s, p)
    decreases |p|, |s|
  {
    if p == "%" {
      PercentTwice(single, s, p);
    } else {
      assert (p + "%")[1..] == p[1..] + "%";
      PercentTwiceBehind(single, s, p[1..]);
      if s != "" {
        PercentTwiceBehind(single, s[1..], p[1..]);
        PercentTwiceBehind(single, s[1..], p);
      }
    }
  }

  lemma DelimitedAgrees(s: string, p: string)
    requires Delimited(p)
    ensures IsLike(s, p) <==> Decomposes(s, Segments(p))
  {
    ScanIsWrappedLike(s, p);
    assert "%" + p + "%" == "%" + (p + "%");
    PercentTwice(false, s, p + "%");
    PercentTwiceBehind(false, s, p);
    OrdinaryCharacters(s, p);
  }

  /** The pattern as a string that it matches: no percent signs, and a letter for each underscore. */
  function Sample(p: string): (s: string)
    ensures '_' !in s
  {
    if p == "" then "" else (if p[0] == '%' then "" else if p[0] == '_' then "a" else [p[0]]) + Sample(p[1..])
  }

  lemma {:induction false} SampleMatches(p: string)
    ensures IsLike(Sample(p), p)
  {
    if p != "" {
      SampleMatches(p[1..]);
      assert p[0] == '%' ==> Sample(p) == Sample(p[1..]);
      assert p[0] != '%' ==> Sample(p)[1..] == Sample(p[1..]);
    }
  }

  lemma {:induction false} LiteralIsThere(s: string, p: string, c: char)
    requires Covers(false, s, p) && c in p && c != '%'
    ensures c in s
    decreases |p|, |s|
  {
    if p[0] == '%' {
      if Covers(false, s, p[1..]) {
        LiteralIsThere(s, p[1..], c);
      } else {
        LiteralIsThere(s[1..], p, c);
      }
    } else if p[0] != c {
      LiteralIsThere(s[1..], p[1..], c);
    }
  }

  lemma {:induction false} MoreBehind(single: bool, s: string, p: string, more: string)
    requires Covers(single, s, p)
    ensures Covers(single, s + more, p + "%")
    decreases |p|, |s|
  {
    if p == "" {
      assert (s + more)[|more|..] == "" && "%"[1..] == "";
      assert p + "%" == "%";
      PercentTakes(single, s + more, "%", |more|);
    } else {
      assert (p + "%")[1..] == p[1..] + "%";
      assert s != "" ==> (s + more)[1..] == s[1..] + more;
      if Covers(single, s, p[1..]) && p[0] == '%' {
        MoreBehind(single, s, p[1..], more);
      } else if p[0] == '%' {
        MoreBehind(single, s[1..], p, more);
      } else {
        MoreBehind(single, s[1..], p[1..], more);
      }
    }
  }

  /** A string that the pattern covers may stand anywhere in the scanned one. */
  lemma CoveredInside(before: string, s: string, after: string, p: string)
    requires Covers(false, s, p)
    ensures Decomposes(before + s + after, Segments(p))
  {
    var all, pattern := before + s + after, "%" + p + "%";
    assert Covers(false, all[|before|..], pattern[1..]) by {
      MoreBehind(false, s, p, after);
      assert all[|before|..] == s + after && pattern[1..] == p + "%";
    }
    PercentTakes(false, all, pattern, |before|);
    ScanIsWrappedLike(all, p);
  }

  lemma {:induction false} LastLiteral(s: string, p: string)
    requires IsLike(s, p) && p != "" && p[|p| - 1] != '%' && p[|p| - 1] != '_'
    ensures s != "" && s[|s| - 1] == p[|p| - 1]
    decreases |p|, |s|
  {
    if |p| == 1 {
      assert p[1..] == "" && Covers(true, s[1..], p[1..]);
      assert s[1..] == "";
    } else if p[0] == '%' && Covers(true, s, p[1..]) {
      LastLiteral(s, p[1..]);
    } else if p[0] == '%' {
      LastLiteral(s[1..], p);
    } else {
      LastLiteral(s[1..], p[1..]);
    }
  }

  function Other(c: char): char {
    if c == 'a' then 'b' else 'a'
  }

  /** Every other pattern has a string on which the two differ: its sample when it has an underscore, and else
      the sample with one wrong character in front or behind. */
  lemma OthersDiffer(p: string) returns (s: string)
    requires !Delimited(p)
    ensures IsLike(s, p) <==> !Decomposes(s, Segments(p))
  {
    s := Sample(p);
    SampleMatches(p);
    if '_' in p {
      ScanIsWrappedLike(s, p);
      if Covers(false, s, "%" + p + "%") {
        LiteralIsThere(s, "%" + p + "%", '_');
      }
    } else {
      OrdinaryCharacters(s, p);
      if p == "" {
        CoveredInside("a", s, "", p);
        s := "a" + s + "";
      } else if p[0] != '%' {
        CoveredInside([Other(p[0])], s, "", p);
        s := [Other(p[0])] + s + "";
      } else {
        CoveredInside("", s, [Other(p[|p| - 1])], p);
        s := "" + s + [Other(p[|p| - 1])];
        if IsLike(s, p) {
          LastLiteral(s, p);
        }
      }
    }
  }

  /** The scan is SQL's LIKE, as its comment says, exactly for patterns that begin and end with a percent sign and
      have no underscore. */
  lemma ScanIsLikeIff(p: string)
    ensures (forall s :: IsLike(s, p) <==> Decomposes(s, Segments(p))) <==> Delimited(p)
  {
    if Delimited(p) {
      forall s ensures IsLike(s, p) <==> Decomposes(s, Segments(p)) {
        DelimitedAgrees(s, p);
      }
    } else {
      var s := OthersDiffer(p);
      assert !(IsLike(s, p) <==> Decomposes(s, Segments(p)));
    }
  }

  lemma UnderscoreIsOrdinary()
    ensures IsLike("ab", "a_") && !Decomposes("ab", Segments("a_"))
  {
    var p := "%" + "a_" + "%";
    ScanIsWrappedLike("ab", "a_");
    if Covers(false, "ab", p) {
      LiteralIsThere("ab", p, '_');
    }
    assert "a_"[1..] == "_" && "_"[1..] == "" && "ab"[1..] == "b" && "b"[1..] == "";
  }
}
