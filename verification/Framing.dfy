/** Cutting a streamed snapshot body into lines: the buffered chunk loop against splitting the whole body. */
module Framing {
  import opened Prelude

  newtype byte = x: int | 0 <= x < 256
  type Bytes = seq<byte>

  const NEWLINE: byte := 10
  const SNAPSHOT_MAX_LINE_BYTES := 16 * 1024 * 1024

  predicate IsWhitespace(b: byte) {
    b == 32 || b == 9 || b == 10 || b == 12 || b == 13
  }

  predicate IsBlank(line: Bytes) {
    forall b :: b in line ==> IsWhitespace(b)
  }

  /** What happens to a line: the new state, and whether the import goes on. */
  type Handler<!S> = (S, Bytes) -> (S, bool)

  /** Handle complete lines in order: blank ones are skipped, the first failure or oversized line ends it. */
  function Lines<S>(h: Handler<S>, s: S, lines: seq<Bytes>): (S, bool) {
    if lines == [] then (s, true)
    else if IsBlank(lines[0]) then Lines(h, s, lines[1..])
    else if |lines[0]| > SNAPSHOT_MAX_LINE_BYTES then (s, false)
    else
      var (s', ok) := h(s, lines[0]);
      if ok then Lines(h, s', lines[1..]) else (s', false)
  }

  function Complete(body: Bytes): seq<Bytes> {
    var parts := Split(NEWLINE, body);
    parts[..|parts| - 1]
  }

  function Tail(body: Bytes): Bytes {
    var parts := Split(NEWLINE, body);
    parts[|parts| - 1]
  }

  /** The reference: split the whole body on newlines; an unterminated rest must be blank. */
  function Whole<S>(h: Handler<S>, s: S, body: Bytes): (S, bool) {
    var (s', ok) := Lines(h, s, Complete(body));
    (s', ok && IsBlank(Tail(body)))
  }

  // --------------------------------------------------------- the chunk loop

  datatype Progress<S> = Progress(state: S, buffer: Bytes, ok: bool)

  /** One chunk: append it, reject an overlong buffer that has no newline, handle the complete lines. */
  function Feed<S>(h: Handler<S>, p: Progress<S>, chunk: Bytes): Progress<S> {
    if !p.ok then p else
      var buffer := p.buffer + chunk;
      if |buffer| > SNAPSHOT_MAX_LINE_BYTES && NEWLINE !in buffer then Progress(p.state, buffer, false)
      else
        var (s, ok) := Lines(h, p.state, Complete(buffer));
        Progress(s, Tail(buffer), ok)
  }

  function Received<S>(h: Handler<S>, s: S, chunks: seq<Bytes>, n: nat): Progress<S>
    requires n <= |chunks|
  {
    if n == 0 then Progress(s, [], true) else Feed(h, Received(h, s, chunks, n - 1), chunks[n - 1])
  }

  /** The streamed import: the state reached, and whether every line and the end of the body were accepted. */
  function Streamed<S>(h: Handler<S>, s: S, chunks: seq<Bytes>): (S, bool) {
    var p := Received(h, s, chunks, |chunks|);
    (p.state, p.ok && IsBlank(p.buffer))
  }

  // ---------------------------------------------------- chunk independence

  lemma {:induction false} LinesConcat<S>(h: Handler<S>, s: S, a: seq<Bytes>, b: seq<Bytes>)
    ensures Lines(h, s, a + b) == var (s', ok) := Lines(h, s, a); if ok then Lines(h, s', b) else (s', false)
  {
    if a == [] {
      assert a + b == b;
    } else {
      assert (a + b)[1..] == a[1..] + b;
      if IsBlank(a[0]) {
        LinesConcat(h, s, a[1..], b);
      } else {
        LinesConcat(h, h(s, a[0]).0, a[1..], b);
      }
    }
  }

  /** More bytes extend the last piece and may add pieces, but never change the complete ones. */
  lemma SplitExtends(a: Bytes, b: Bytes)
    ensures Complete(a + b) == Complete(a) + Complete(Tail(a) + b)
    ensures Tail(a + b) == Tail(Tail(a) + b)
  {
    var parts := Split(NEWLINE, a);
    var init, last := Complete(a), Tail(a);
    SplitRebuilds(NEWLINE, a);
    assert a + b == Terminated(NEWLINE, init) + (last + b);
    forall i | 0 <= i < |init| ensures NEWLINE !in init[i] {
      assert init[i] == parts[i];
    }
    SplitOfTerminated(NEWLINE, init, last + b);
    var more := Split(NEWLINE, last + b);
    assert (init + more)[..|init + more| - 1] == init + more[..|more| - 1];
  }

  /** No whitespace-only line or rest is longer than the limit. */
  ghost predicate NoLongBlank(body: Bytes) {
    forall line :: line in Split(NEWLINE, body) && IsBlank(line) ==> |line| <= SNAPSHOT_MAX_LINE_BYTES
  }

  lemma {:induction false} ReceivedPrefix<S>(h: Handler<S>, s: S, chunks: seq<Bytes>, n: nat)
    requires n <= |chunks| && Received(h, s, chunks, n).ok
    ensures var body := Flatten(chunks[..n]);
      Lines(h, s, Complete(body)) == (Received(h, s, chunks, n).state, true) &&
      Received(h, s, chunks, n).buffer == Tail(body)
  {
    if n == 0 {
      assert Split<byte>(NEWLINE, []) == [[]];
      assert Complete([]) == [];
    } else {
      ReceivedPrefix(h, s, chunks, n - 1);
      var before, p := Flatten(chunks[..n - 1]), Received(h, s, chunks, n - 1);
      PrefixGrows(chunks, n);
      SplitExtends(before, chunks[n - 1]);
      LinesConcat(h, s, Complete(before), Complete(p.buffer + chunks[n - 1]));
    }
  }

  lemma PrefixGrows(chunks: seq<Bytes>, n: nat)
    requires 0 < n <= |chunks|
    ensures Flatten(chunks[..n]) == Flatten(chunks[..n - 1]) + chunks[n - 1]
  {
    assert chunks[..n][..n - 1] == chunks[..n - 1];
  }

  lemma {:induction false} FlattenSplits(chunks: seq<Bytes>, n: nat)
    requires n <= |chunks|
    ensures Flatten(chunks) == Flatten(chunks[..n]) + Flatten(chunks[n..])
  {
    assert chunks == chunks[..n] + chunks[n..];
    FlattenConcat(chunks[..n], chunks[n..]);
  }

  /** A failure of the complete lines of a prefix is a failure of the whole body, in the same state. */
  lemma FailedLinesFail<S>(h: Handler<S>, s: S, prefix: Bytes, rest: Bytes)
    requires !Lines(h, s, Complete(prefix)).1
    ensures Whole(h, s, prefix + rest) == (Lines(h, s, Complete(prefix)).0, false)
  {
    SplitExtends(prefix, rest);
    LinesConcat(h, s, Complete(prefix), Complete(Tail(prefix) + rest));
  }

  /** So is a rest of a prefix that is already too long, unless it grows into a blank line. */
  lemma OverlongFails<S>(h: Handler<S>, s: S, prefix: Bytes, rest: Bytes)
    requires Lines(h, s, Complete(prefix)).1 && |Tail(prefix)| > SNAPSHOT_MAX_LINE_BYTES
    requires NoLongBlank(prefix + rest)
    ensures Whole(h, s, prefix + rest) == (Lines(h, s, Complete(prefix)).0, false)
  {
    var last := Tail(prefix);
    var more := Split(NEWLINE, last + rest);
    SplitExtends(prefix, rest);
    LinesConcat(h, s, Complete(prefix), Complete(last + rest));
    SplitFirstIsLong(last, rest);
    assert more[0] in Split(NEWLINE, prefix + rest) by {
      if |more| > 1 {
        assert Complete(last + rest)[0] == more[0];
        assert Complete(prefix + rest)[|Complete(prefix)|] == more[0];
      } else {
        assert Tail(prefix + rest) == more[0];
      }
    }
    if |more| > 1 {
      assert Complete(last + rest)[0] == more[0];
    } else {
      assert Complete(last + rest) == [];
    }
  }

  lemma SplitFirstIsLong(last: Bytes, rest: Bytes)
    requires NEWLINE !in last
    ensures |Split(NEWLINE, last + rest)[0]| >= |last|
  {
    var s := last + rest;
    var i := Position(NEWLINE, s);
    assert i >= |last| by {
      assert forall j :: 0 <= j < |last| ==> s[j] == last[j];
    }
  }

  lemma OverlongBuffer<S>(h: Handler<S>, s: S, before: Bytes, chunk: Bytes, rest: Bytes)
    requires Lines(h, s, Complete(before)).1 && NoLongBlank(before + chunk + rest)
    requires |Tail(before) + chunk| > SNAPSHOT_MAX_LINE_BYTES && NEWLINE !in Tail(before) + chunk
    ensures Whole(h, s, before + chunk + rest) == (Lines(h, s, Complete(before)).0, false)
  {
    var buffer := Tail(before) + chunk;
    SplitExtends(before, chunk);
    assert Split(NEWLINE, buffer) == [buffer];
    assert Complete(before + chunk) == Complete(before) && Tail(before + chunk) == buffer;
    OverlongFails(h, s, before + chunk, rest);
  }

  lemma FailedDrain<S>(h: Handler<S>, s: S, before: Bytes, chunk: Bytes, rest: Bytes, state: S)
    requires Lines(h, s, Complete(before)) == (state, true) && !Lines(h, state, Complete(Tail(before) + chunk)).1
    ensures Whole(h, s, before + chunk + rest) == (Lines(h, state, Complete(Tail(before) + chunk)).0, false)
  {
    SplitExtends(before, chunk);
    LinesConcat(h, s, Complete(before), Complete(Tail(before) + chunk));
    FailedLinesFail(h, s, before + chunk, rest);
  }

  /** A chunk that fails after others that did not fails the whole body in the same state. */
  lemma FeedFails<S>(h: Handler<S>, s: S, before: Bytes, p: Progress<S>, chunk: Bytes, rest: Bytes)
    requires p.ok && Lines(h, s, Complete(before)) == (p.state, true) && p.buffer == Tail(before)
    requires !Feed(h, p, chunk).ok && NoLongBlank(before + chunk + rest)
    ensures Whole(h, s, before + chunk + rest) == (Feed(h, p, chunk).state, false)
  {
    if |p.buffer + chunk| > SNAPSHOT_MAX_LINE_BYTES && NEWLINE !in p.buffer + chunk {
      OverlongBuffer(h, s, before, chunk, rest);
    } else {
      FailedDrain(h, s, before, chunk, rest, p.state);
    }
  }

  lemma FailsTogether<S>(h: Handler<S>, s: S, chunks: seq<Bytes>, n: nat)
    requires 0 < n <= |chunks| && NoLongBlank(Flatten(chunks))
    requires Received(h, s, chunks, n - 1).ok && !Received(h, s, chunks, n).ok
    ensures Whole(h, s, Flatten(chunks)) == (Received(h, s, chunks, n).state, false)
  {
    ReceivedPrefix(h, s, chunks, n - 1);
    PrefixGrows(chunks, n);
    FlattenSplits(chunks, n);
    FeedFails(h, s, Flatten(chunks[..n - 1]), Received(h, s, chunks, n - 1), chunks[n - 1], Flatten(chunks[n..]));
  }

  lemma {:induction false} FailedStays<S>(h: Handler<S>, s: S, chunks: seq<Bytes>, n: nat)
    requires n <= |chunks| && NoLongBlank(Flatten(chunks)) && !Received(h, s, chunks, n).ok
    ensures Whole(h, s, Flatten(chunks)) == (Received(h, s, chunks, n).state, false)
  {
    if Received(h, s, chunks, n - 1).ok {
      FailsTogether(h, s, chunks, n);
    } else {
      FailedStays(h, s, chunks, n - 1);
    }
  }

  /** However the body is cut into chunks, the streamed import hands on the lines of the whole body, reaches the
      same state and gives the same verdict, as long as no whitespace-only line exceeds the limit. */
  lemma ChunkingIsInvisible<S>(h: Handler<S>, s: S, chunks: seq<Bytes>)
    requires NoLongBlank(Flatten(chunks))
    ensures Streamed(h, s, chunks) == Whole(h, s, Flatten(chunks))
  {
    if Received(h, s, chunks, |chunks|).ok {
      ReceivedPrefix(h, s, chunks, |chunks|);
      assert chunks[..|chunks|] == chunks;
    } else {
      FailedStays(h, s, chunks, |chunks|);
    }
  }

  // ------------------------------------------------------- the exact limit

  lemma OnlyTerminated(lines: seq<Bytes>)
    requires forall i :: 0 <= i < |lines| ==> NEWLINE !in lines[i]
    ensures Complete(Terminated(NEWLINE, lines)) == lines && Tail(Terminated(NEWLINE, lines)) == []
  {
    var empty: Bytes := [];
    SplitOfTerminated(NEWLINE, lines, empty);
    assert Terminated(NEWLINE, lines) + empty == Terminated(NEWLINE, lines);
    assert Split(NEWLINE, empty) == [empty];
    assert (lines + [empty])[..|lines|] == lines;
  }

  lemma CutTerminated(init: seq<Bytes>, last: Bytes, i: nat) returns (rest: Bytes)
    requires i <= |init|
    ensures Terminated(NEWLINE, init) + last ==
            Terminated(NEWLINE, init[..i]) + (if i < |init| then init[i] else last) + rest
  {
    assert init == init[..i] + init[i..];
    TerminatedConcat(init[..i], init[i..]);
    if i < |init| {
      assert init[i..] == [init[i]] + init[i + 1..];
      TerminatedFirst(NEWLINE, init[i], init[i + 1..], last);
      rest := [NEWLINE] + (Terminated(NEWLINE, init[i + 1..]) + last);
    } else {
      rest := [];
      assert init[i..] == [];
    }
  }

  /** The body as the lines before piece `i`, that piece, and the rest. */
  lemma CutAt(body: Bytes, i: nat) returns (before: Bytes, rest: Bytes)
    requires i < |Split(NEWLINE, body)|
    ensures body == before + Split(NEWLINE, body)[i] + rest
    ensures Complete(before) == Split(NEWLINE, body)[..i] && Tail(before) == []
  {
    var parts := Split(NEWLINE, body);
    SplitRebuilds(NEWLINE, body);
    var lines: seq<Bytes> := parts[..i];
    assert forall k :: 0 <= k < i ==> lines[k] == parts[k];
    OnlyTerminated(lines);
    before := Terminated(NEWLINE, lines);
    rest := CutTerminated(Complete(body), Tail(body), i);
    assert Complete(body)[..i] == lines;
  }

  lemma {:induction false} TerminatedConcat(a: seq<Bytes>, b: seq<Bytes>)
    ensures Terminated(NEWLINE, a + b) == Terminated(NEWLINE, a) + Terminated(NEWLINE, b)
  {
    if a == [] {
      assert a + b == b;
    } else {
      assert (a + b)[1..] == a[1..] + b;
      TerminatedConcat(a[1..], b);
    }
  }

  lemma ThreeChunks(a: Bytes, b: Bytes, c: Bytes)
    ensures Flatten([a, b, c]) == a + b + c
  {
    var chunks: seq<Bytes> := [a, b, c];
    PrefixGrows(chunks, 1);
    PrefixGrows(chunks, 2);
    PrefixGrows(chunks, 3);
    assert chunks[..3] == chunks;
  }

  lemma CutAroundLine<S>(h: Handler<S>, s: S, before: Bytes, line: Bytes, rest: Bytes)
    requires Tail(before) == [] && NEWLINE !in line && |line| > SNAPSHOT_MAX_LINE_BYTES
    ensures !Received(h, s, [before, line, rest], 3).ok
  {
    var chunks := [before, line, rest];
    var start := Progress(s, [], true);
    assert Received(h, s, chunks, 0) == start;
    assert start.buffer + before == before;
    var first := Feed(h, start, before);
    assert Received(h, s, chunks, 1) == first;
    if first.ok {
      assert first.buffer + line == line;
    }
    assert !Feed(h, first, line).ok;
    assert Received(h, s, chunks, 2) == Feed(h, first, line);
  }

  /** The condition is exact: a body that is accepted when it arrives whole, but has a whitespace-only line over
      the limit, is rejected when it is cut around that line. */
  lemma LongBlankIsVisible<S>(h: Handler<S>, s: S, body: Bytes) returns (chunks: seq<Bytes>)
    requires !NoLongBlank(body)
    ensures Flatten(chunks) == body && !Streamed(h, s, chunks).1
  {
    var parts := Split(NEWLINE, body);
    var line :| line in parts && IsBlank(line) && |line| > SNAPSHOT_MAX_LINE_BYTES;
    var i :| 0 <= i < |parts| && parts[i] == line;
    var before, rest := CutAt(body, i);
    chunks := [before, line, rest];
    ThreeChunks(before, line, rest);
    CutAroundLine(h, s, before, line, rest);
  }

  /** What a cut accepts is accepted whole, in the same state. */
  lemma AcceptedWhole<S>(h: Handler<S>, s: S, chunks: seq<Bytes>)
    requires Streamed(h, s, chunks).1
    ensures Whole(h, s, Flatten(chunks)) == Streamed(h, s, chunks)
  {
    ReceivedPrefix(h, s, chunks, |chunks|);
    assert chunks[..|chunks|] == chunks;
  }

  ghost predicate SameVerdict<S>(h: Handler<S>, s: S, chunks: seq<Bytes>) {
    Streamed(h, s, chunks).1 == Whole(h, s, Flatten(chunks)).1
  }

  ghost predicate SameResult<S>(h: Handler<S>, s: S, chunks: seq<Bytes>) {
    Streamed(h, s, chunks) == Whole(h, s, Flatten(chunks))
  }

  /** All cuts of a body give its verdict exactly when it has no whitespace-only line over the limit or is
      rejected whole anyway; and all cuts of a body that is accepted whole reach its state as well exactly when it
      has no such line. */
  lemma ChunkIndependenceIff<S>(h: Handler<S>, s: S, body: Bytes)
    ensures (forall chunks :: Flatten(chunks) == body ==> SameVerdict(h, s, chunks)) <==>
            NoLongBlank(body) || !Whole(h, s, body).1
    ensures Whole(h, s, body).1 ==>
              ((forall chunks :: Flatten(chunks) == body ==> SameResult(h, s, chunks)) <==> NoLongBlank(body))
  {
    if NoLongBlank(body) {
      forall chunks: seq<Bytes> | Flatten(chunks) == body
        ensures SameVerdict(h, s, chunks) && SameResult(h, s, chunks)
      {
        ChunkingIsInvisible(h, s, chunks);
      }
    } else if Whole(h, s, body).1 {
      var chunks := LongBlankIsVisible(h, s, body);
      assert !SameVerdict(h, s, chunks) && !SameResult(h, s, chunks);
    } else {
      forall chunks: seq<Bytes> | Flatten(chunks) == body ensures SameVerdict(h, s, chunks) {
        if Streamed(h, s, chunks).1 {
          AcceptedWhole(h, s, chunks);
        }
      }
    }
  }
}
