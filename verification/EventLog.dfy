/** The append-only event log with idempotency keys and protected streams. */
module EventLog {
  import opened Prelude
  import opened Ordering
  import opened Runs

  const PROTECTED_STREAM := "__thingd:mcp:audit"

  datatype Event = Event(
    stream: string,
    eventType: string,
    body: string,
    sequence: u64,
    createdAt: string,
    key: string)

  /** `keys` maps a stream and idempotency key to the sequence it was last given. */
  datatype Log = Log(events: seq<Event>, next: u64, keys: map<(string, string), u64>)

  const EMPTY_LOG := Log([], 0, map[])

  function KeyOf(e: Event): (string, string) {
    (e.stream, e.key)
  }

  /** Index of the first event with this sequence, or the length when there is none. */
  function IndexOfSequence(events: seq<Event>, sequence: u64): (i: nat)
    ensures i <= |events|
    ensures i < |events| ==> events[i].sequence == sequence
    ensures forall j :: 0 <= j < i ==> events[j].sequence != sequence
  {
    if events == [] || events[0].sequence == sequence then 0 else 1 + IndexOfSequence(events[1..], sequence)
  }

  /** The live event that an append of `e` would replay, if any. */
  function Known(log: Log, e: Event): Option<Event> {
    if e.key == "" || KeyOf(e) !in log.keys then None else
      var i := IndexOfSequence(log.events, log.keys[KeyOf(e)]);
      if i < |log.events| then Some(log.events[i]) else None
  }

  function Append(log: Log, e: Event, now: string): (Log, Event) {
    match Known(log, e)
    case Some(existing) => (log, existing)
    case None =>
      var seqno := Increment(log.next);
      var event := e.(sequence := seqno, createdAt := if e.createdAt == "" then now else e.createdAt);
      (Log(log.events + [event], seqno, if e.key == "" then log.keys else log.keys[KeyOf(e) := seqno]), event)
  }

  /** One past the index of the last event of the stream, or 0. */
  function LastOf(events: seq<Event>, stream: string): (n: nat)
    ensures n <= |events|
    ensures n > 0 ==> events[n - 1].stream == stream
    ensures forall j :: n <= j < |events| ==> events[j].stream != stream
  {
    if events == [] || events[|events| - 1].stream == stream then |events| else LastOf(events[..|events| - 1], stream)
  }

  function DeleteLast(log: Log, stream: string): (Log, Result<Option<Event>, Error>) {
    if stream == PROTECTED_STREAM then (log, Err(Protected)) else
      var n := LastOf(log.events, stream);
      if n == 0 then (log, Ok(None))
      else (log.(events := log.events[..n - 1] + log.events[n..]), Ok(Some(log.events[n - 1])))
  }

  function Without(events: seq<Event>, stream: string): seq<Event> {
    Filter((e: Event) => e.stream != stream, events)
  }

  function DeleteStream(log: Log, stream: string): (Log, Result<nat, Error>) {
    if stream == PROTECTED_STREAM then (log, Err(Protected)) else
      var kept := Without(log.events, stream);
      (log.(events := kept), Ok(|log.events| - |kept|))
  }

  // ------------------------------------------------------------- invariant

  predicate Earlier(a: Event, b: Event) {
    a.sequence < b.sequence
  }

  /** Sequences increase strictly and were all issued; every live keyed event is the one its key points at; and
      a key that points at a live event points at the event that carries it. */
  ghost predicate LogOk(log: Log) {
    && Pairwise(Earlier, log.events)
    && (forall e :: e in log.events ==> 1 <= e.sequence <= log.next)
    && (forall e :: e in log.events && e.key != "" ==> KeyOf(e) in log.keys && log.keys[KeyOf(e)] == e.sequence)
    && (forall k :: k in log.keys ==> 1 <= log.keys[k] <= log.next)
    && (forall k, e :: k in log.keys && e in log.events && e.sequence == log.keys[k] ==> KeyOf(e) == k)
  }

  lemma SequencesDiffer(events: seq<Event>, i: nat, j: nat)
    requires Pairwise(Earlier, events) && i < |events| && j < |events|
    ensures i != j ==> events[i].sequence != events[j].sequence
  {
    if i < j {
      assert Earlier(events[i], events[j]);
    } else if j < i {
      assert Earlier(events[j], events[i]);
    }
  }

  lemma OneLiveEventPerKey(log: Log, a: Event, b: Event)
    requires LogOk(log) && a in log.events && b in log.events
    requires a.key != "" && KeyOf(a) == KeyOf(b)
    ensures a == b
  {
    var i, j :| 0 <= i < |log.events| && 0 <= j < |log.events| && log.events[i] == a && log.events[j] == b;
    SequencesDiffer(log.events, i, j);
  }

  /** The invariant survives an append exactly when the append is a replay or the counter has not run out;
      at the top it wraps to sequence zero. */
  lemma AppendKeepsOrder(log: Log, e: Event, now: string)
    requires LogOk(log)
    ensures LogOk(Append(log, e, now).0) <==> Known(log, e).Some? || log.next < U64_MAX
  {
    var (log', event) := Append(log, e, now);
    if Known(log, e).None? {
      if log.next < U64_MAX {
        forall i, j | 0 <= i < j < |log'.events| ensures Earlier(log'.events[i], log'.events[j]) {
          assert log.events[i] in log.events;
          assert j < |log.events| ==> Earlier(log.events[i], log.events[j]);
        }
        if e.key != "" {
          UnknownKeyIsNotLive(log, e);
        }
      } else {
        assert event in log'.events && event.sequence == 0;
      }
    }
  }

  lemma UnknownKeyIsNotLive(log: Log, e: Event)
    requires LogOk(log) && Known(log, e).None? && e.key != ""
    ensures forall x :: x in log.events ==> KeyOf(x) != KeyOf(e)
  {
    forall x | x in log.events ensures KeyOf(x) != KeyOf(e) {
      var i :| 0 <= i < |log.events| && log.events[i] == x;
      assert IndexOfSequence(log.events, x.sequence) <= i;
    }
  }

  lemma SubsequenceKeeps(log: Log, kept: seq<Event>)
    requires LogOk(log) && Pairwise(Earlier, kept) && forall e :: e in kept ==> e in log.events
    ensures LogOk(log.(events := kept))
  {
  }

  lemma DeleteStreamKeeps(log: Log, stream: string)
    requires LogOk(log)
    ensures LogOk(DeleteStream(log, stream).0)
  {
    FilterPairwise((e: Event) => e.stream != stream, Earlier, log.events);
    SubsequenceKeeps(log, Without(log.events, stream));
  }

  lemma RemoveOne(events: seq<Event>, n: nat)
    requires Pairwise(Earlier, events) && 0 < n <= |events|
    ensures Pairwise(Earlier, events[..n - 1] + events[n..])
    ensures forall e :: e in events[..n - 1] + events[n..] ==> e in events
  {
    var kept := events[..n - 1] + events[n..];
    forall i, j | 0 <= i < j < |kept| ensures Earlier(kept[i], kept[j]) {
      var a, b := if i < n - 1 then i else i + 1, if j < n - 1 then j else j + 1;
      assert kept[i] == events[a] && kept[j] == events[b];
    }
  }

  lemma DeleteLastKeeps(log: Log, stream: string)
    requires LogOk(log)
    ensures LogOk(DeleteLast(log, stream).0)
  {
    var n := LastOf(log.events, stream);
    if n > 0 {
      RemoveOne(log.events, n);
      SubsequenceKeeps(log, log.events[..n - 1] + log.events[n..]);
    }
  }

  // ------------------------------------------------------------------ runs

  datatype Op =
    | AppendOp(event: Event, now: string)
    | DeleteLastOp(target: string)
    | DeleteStreamOp(target: string)

  function Step(log: Log, op: Op): Log {
    match op
    case AppendOp(e, now) => Append(log, e, now).0
    case DeleteLastOp(s) => DeleteLast(log, s).0
    case DeleteStreamOp(s) => DeleteStream(log, s).0
  }

  /** The log after the first `k` operations, starting empty. */
  function At(ops: seq<Op>, k: nat): Log
    requires k <= |ops|
  {
    if k == 0 then EMPTY_LOG else Step(At(ops, k - 1), ops[k - 1])
  }

  /** The operation at `k` appends a new event rather than replaying a known one. */
  predicate Issues(ops: seq<Op>, k: nat)
    requires k < |ops|
  {
    ops[k].AppendOp? && Known(At(ops, k), ops[k].event).None?
  }

  predicate NotExhausted(ops: seq<Op>, k: nat)
    requires k < |ops|
  {
    Issues(ops, k) ==> At(ops, k).next < U64_MAX
  }

  /** No new event is appended while the counter stands at its maximum. */
  ghost predicate NeverExhausted(ops: seq<Op>) {
    forall k :: 0 <= k < |ops| ==> NotExhausted(ops, k)
  }

  lemma StepKeeps(log: Log, op: Op)
    requires LogOk(log)
    ensures LogOk(Step(log, op)) <==> (op.AppendOp? && Known(log, op.event).None? ==> log.next < U64_MAX)
  {
    match op
    case AppendOp(e, now) => AppendKeepsOrder(log, e, now);
    case DeleteLastOp(s) => DeleteLastKeeps(log, s);
    case DeleteStreamOp(s) => DeleteStreamKeeps(log, s);
  }

  ghost predicate OrderedAt(ops: seq<Op>, k: nat)
    requires k <= |ops|
  {
    LogOk(At(ops, k))
  }

  lemma NextOrdered(ops: seq<Op>, k: nat)
    requires k < |ops| && OrderedAt(ops, k)
    ensures OrderedAt(ops, k + 1) <==> NotExhausted(ops, k)
  {
    StepKeeps(At(ops, k), ops[k]);
    assert At(ops, k + 1) == Step(At(ops, k), ops[k]);
  }

  /** The logs of the run, from the empty one on. */
  function States(ops: seq<Op>): (states: seq<Log>)
    ensures |states| == |ops| + 1 && forall k :: 0 <= k <= |ops| ==> states[k] == At(ops, k)
  {
    seq(|ops| + 1, k requires 0 <= k <= |ops| => At(ops, k))
  }

  lemma OrderedUpTo(ops: seq<Op>, k: nat)
    requires NeverExhausted(ops) && k <= |ops|
    ensures OrderedAt(ops, k)
  {
    var ok, states := (log: Log) => LogOk(log), States(ops);
    forall m | 0 <= m < |ops| ensures Carried(ok, states, m) {
      assert NotExhausted(ops, m);
      if OrderedAt(ops, m) {
        NextOrdered(ops, m);
      }
    }
    Invariant(ok, states, k);
  }

  /** The invariant holds throughout a run of appends, single deletions and stream deletions exactly when the
      run never asks for a new sequence that a u64 cannot hold. */
  lemma LogStaysOrdered(ops: seq<Op>)
    ensures (forall k :: 0 <= k <= |ops| ==> OrderedAt(ops, k)) <==> NeverExhausted(ops)
  {
    if forall k :: 0 <= k <= |ops| ==> OrderedAt(ops, k) {
      forall k | 0 <= k < |ops| ensures NotExhausted(ops, k) {
        assert OrderedAt(ops, k) && OrderedAt(ops, k + 1);
        NextOrdered(ops, k);
      }
    }
    if NeverExhausted(ops) {
      forall k | 0 <= k <= |ops| ensures OrderedAt(ops, k) {
        OrderedUpTo(ops, k);
      }
    }
  }

  // ---------------------------------------------------- sequence numbers

  lemma NextCounter(ops: seq<Op>, k: nat)
    requires k < |ops| && NotExhausted(ops, k)
    ensures At(ops, k).next <= At(ops, k + 1).next <= At(ops, k).next + 1
  {
    StepCounter(At(ops, k), ops[k]);
  }

  lemma StepCounter(log: Log, op: Op)
    requires op.AppendOp? && Known(log, op.event).None? ==> log.next < U64_MAX
    ensures log.next <= Step(log, op).next <= log.next + 1
  {
  }

  predicate BoundAt(ops: seq<Op>, k: nat)
    requires k <= |ops|
  {
    At(ops, k).next <= k
  }

  lemma NextBound(ops: seq<Op>, k: nat)
    requires k < |ops| <= U64_MAX && BoundAt(ops, k)
    ensures BoundAt(ops, k + 1)
  {
    NextCounter(ops, k);
  }

  function BoundThen(ops: seq<Op>): nat -> bool {
    (k: nat) => k <= |ops| && BoundAt(ops, k)
  }

  lemma BoundKept(ops: seq<Op>, k: nat)
    requires k < |ops| <= U64_MAX
    ensures Kept(BoundThen(ops), k)
  {
    if BoundThen(ops)(k) {
      NextBound(ops, k);
    }
  }

  lemma CounterBound(ops: seq<Op>, k: nat)
    requires k <= |ops| <= U64_MAX
    ensures BoundThen(ops)(k)
  {
    assert BoundThen(ops)(0);
    forall m | 0 <= m < |ops| ensures Kept(BoundThen(ops), m) {
      BoundKept(ops, m);
    }
    UpTo(BoundThen(ops), |ops|, k);
  }

  /** Only a run of more than 2^64 - 1 operations can exhaust the counter. */
  lemma ShortRunsNeverExhaust(ops: seq<Op>)
    requires |ops| <= U64_MAX
    ensures NeverExhausted(ops)
  {
    forall k | 0 <= k < |ops| ensures NotExhausted(ops, k) {
      CounterBound(ops, k);
    }
  }

  predicate NextAtMost(a: Log, b: Log) {
    a.next <= b.next
  }

  lemma CounterNeverFalls(ops: seq<Op>, i: nat, k: nat)
    requires NeverExhausted(ops) && i <= k <= |ops|
    ensures NextAtMost(At(ops, i), At(ops, k))
  {
    forall m | 0 <= m < |ops| ensures Linked(NextAtMost, States(ops), m) {
      assert NotExhausted(ops, m);
      NextCounter(ops, m);
    }
    Monotone(NextAtMost, States(ops), i, k);
  }

  /** The sequence the operation at `k` answers with. */
  function Answered(ops: seq<Op>, k: nat): u64
    requires k < |ops| && ops[k].AppendOp?
  {
    Append(At(ops, k), ops[k].event, ops[k].now).1.sequence
  }

  lemma IssuedIsNext(ops: seq<Op>, k: nat)
    requires k < |ops| && Issues(ops, k) && NotExhausted(ops, k)
    ensures Answered(ops, k) == At(ops, k).next + 1 == At(ops, k + 1).next
  {
    NextSequence(At(ops, k), ops[k].event, ops[k].now);
  }

  lemma NextSequence(log: Log, e: Event, now: string)
    requires Known(log, e).None? && log.next < U64_MAX
    ensures Append(log, e, now).1.sequence == Append(log, e, now).0.next == log.next + 1
  {
  }

  /** No sequence is issued twice, even after the event that had it was deleted. */
  lemma SequencesNeverReused(ops: seq<Op>, i: nat, j: nat)
    requires NeverExhausted(ops) && i < j < |ops| && Issues(ops, i) && Issues(ops, j)
    ensures Answered(ops, i) < Answered(ops, j)
  {
    assert NotExhausted(ops, i) && NotExhausted(ops, j);
    IssuedIsNext(ops, i);
    IssuedIsNext(ops, j);
    CounterNeverFalls(ops, i + 1, j);
  }

  // --------------------------------------------------------------- replay

  /** Appending a list of events in order, with the answers; `clock(i)` stamps the i-th. */
  function AppendAll(log: Log, es: seq<Event>, clock: nat -> string): (Log, seq<Event>) {
    if es == [] then (log, []) else
      var (log1, rs) := AppendAll(log, es[..|es| - 1], clock);
      var (log2, r) := Append(log1, es[|es| - 1], clock(|es| - 1));
      (log2, rs + [r])
  }

  lemma AppendMakesKnown(log: Log, e: Event, now: string)
    requires LogOk(log) && log.next < U64_MAX && e.key != ""
    ensures Known(Append(log, e, now).0, e) == Some(Append(log, e, now).1)
  {
    var (log', event) := Append(log, e, now);
    if Known(log, e).None? {
      assert log'.events[|log.events|] == event;
      forall j | 0 <= j < |log.events| ensures log'.events[j].sequence != event.sequence {
        assert log.events[j] in log.events;
      }
    }
  }

  lemma AppendKeepsKnown(log: Log, e: Event, now: string, known: Event)
    requires LogOk(log) && Known(log, known).Some?
    ensures Known(Append(log, e, now).0, known) == Known(log, known)
  {
    var log' := Append(log, e, now).0;
    if Known(log, e).None? {
      var s := log.keys[KeyOf(known)];
      var i := IndexOfSequence(log.events, s);
      assert log'.events[i] == log.events[i];
      assert IndexOfSequence(log'.events, s) <= i;
      assert IndexOfSequence(log'.events, s) == i by {
        assert forall j :: 0 <= j < i ==> log'.events[j] == log.events[j];
      }
    }
  }

  /** Appending any list keeps the invariant and only adds at the end. */
  lemma {:induction false} AppendAllExtends(log: Log, es: seq<Event>, clock: nat -> string)
    requires LogOk(log) && log.next + |es| <= U64_MAX
    ensures var (log', rs) := AppendAll(log, es, clock);
      LogOk(log') && log'.next <= log.next + |es| && log.events <= log'.events && |rs| == |es|
  {
    if es != [] {
      AppendAllExtends(log, es[..|es| - 1], clock);
      var (log1, _) := AppendAll(log, es[..|es| - 1], clock);
      AppendKeepsOrder(log1, es[|es| - 1], clock(|es| - 1));
    }
  }

  lemma {:induction false} AppendAllMakesKnown(log: Log, es: seq<Event>, clock: nat -> string, i: nat)
    requires LogOk(log) && log.next + |es| <= U64_MAX && i < |es| && es[i].key != ""
    ensures var (log', rs) := AppendAll(log, es, clock);
      |rs| == |es| && Known(log', es[i]) == Some(rs[i])
  {
    var init, e, now := es[..|es| - 1], es[|es| - 1], clock(|es| - 1);
    AppendAllExtends(log, init, clock);
    var (log1, rs) := AppendAll(log, init, clock);
    if i == |es| - 1 {
      AppendMakesKnown(log1, e, now);
    } else {
      AppendAllMakesKnown(log, init, clock, i);
      AppendKeepsKnown(log1, e, now, init[i]);
    }
  }

  lemma {:induction false} ReplayOfKnown(log: Log, es: seq<Event>, rs: seq<Event>, clock: nat -> string)
    requires |rs| == |es| && forall i :: 0 <= i < |es| ==> Known(log, es[i]) == Some(rs[i])
    ensures AppendAll(log, es, clock) == (log, rs)
  {
    if es == [] {
      assert rs == [];
    } else {
      ReplayOfKnown(log, es[..|es| - 1], rs[..|rs| - 1], clock);
      assert rs == rs[..|rs| - 1] + [rs[|rs| - 1]];
    }
  }

  /** Appending any list of keyed events a second time, at any later clock, changes nothing and returns the
      same events, even when the list repeats keys. */
  lemma ReplayIsIdempotent(log: Log, es: seq<Event>, clock: nat -> string, later: nat -> string)
    requires LogOk(log) && log.next + |es| <= U64_MAX
    requires forall e :: e in es ==> e.key != ""
    ensures var (log', rs) := AppendAll(log, es, clock);
      AppendAll(log', es, later) == (log', rs)
  {
    var (log', rs) := AppendAll(log, es, clock);
    AppendAllExtends(log, es, clock);
    forall i | 0 <= i < |es| ensures Known(log', es[i]) == Some(rs[i]) {
      AppendAllMakesKnown(log, es, clock, i);
    }
    ReplayOfKnown(log', es, rs, later);
  }

  // ----------------------------------------------------- protected stream

  function InStream(events: seq<Event>, stream: string): seq<Event> {
    Filter((e: Event) => e.stream == stream, events)
  }

  lemma {:induction false} WithoutKeepsOthers(events: seq<Event>, stream: string, other: string)
    requires stream != other
    ensures InStream(Without(events, stream), other) == InStream(events, other)
  {
    if events != [] {
      var init, last := events[..|events| - 1], events[|events| - 1];
      WithoutKeepsOthers(init, stream, other);
      if last.stream != stream {
        FilterConcat((e: Event) => e.stream == other, Without(init, stream), [last]);
        assert InStream([last], other) == if last.stream == other then [last] else [] by {
          assert [last][..0] == [];
        }
        assert Without(events, stream) == Without(init, stream) + [last];
      }
    }
  }

  lemma DeleteLastKeepsOthers(events: seq<Event>, n: nat, other: string)
    requires 0 < n <= |events| && events[n - 1].stream != other
    ensures InStream(events[..n - 1] + events[n..], other) == InStream(events, other)
  {
    var p := (e: Event) => e.stream == other;
    assert events == events[..n - 1] + [events[n - 1]] + events[n..];
    FilterConcat(p, events[..n - 1] + [events[n - 1]], events[n..]);
    FilterConcat(p, events[..n - 1], [events[n - 1]]);
    FilterConcat(p, events[..n - 1], events[n..]);
    assert Filter(p, [events[n - 1]]) == [] by {
      assert [events[n - 1]][..0] == [];
    }
  }

  lemma StepProtects(log: Log, op: Op)
    ensures InStream(log.events, PROTECTED_STREAM) <= InStream(Step(log, op).events, PROTECTED_STREAM)
  {
    match op
    case AppendOp(e, now) =>
      if Known(log, e).None? {
        var event := Append(log, e, now).1;
        FilterConcat((x: Event) => x.stream == PROTECTED_STREAM, log.events, [event]);
      }
    case DeleteLastOp(s) =>
      var n := LastOf(log.events, s);
      if s != PROTECTED_STREAM && n > 0 {
        DeleteLastKeepsOthers(log.events, n, PROTECTED_STREAM);
      }
    case DeleteStreamOp(s) =>
      if s != PROTECTED_STREAM {
        WithoutKeepsOthers(log.events, s, PROTECTED_STREAM);
      }
  }

  /** What the audit stream held stays, in place. */
  predicate AuditGrows(a: Log, b: Log) {
    InStream(a.events, PROTECTED_STREAM) <= InStream(b.events, PROTECTED_STREAM)
  }

  lemma NextProtects(ops: seq<Op>, k: nat)
    requires k < |ops|
    ensures AuditGrows(At(ops, k), At(ops, k + 1))
  {
    StepProtects(At(ops, k), ops[k]);
  }

  /** The audit stream is append-only, whatever is done to the log. */
  lemma ProtectedStreamOnlyGrows(ops: seq<Op>, i: nat, k: nat)
    requires i <= k <= |ops|
    ensures AuditGrows(At(ops, i), At(ops, k))
  {
    forall m | 0 <= m < |ops| ensures Linked(AuditGrows, States(ops), m) {
      NextProtects(ops, m);
    }
    Monotone(AuditGrows, States(ops), i, k);
  }

  // --------------------------------------------------------------- listing

  function Take<T>(limit: Option<u64>, s: seq<T>): seq<T> {
    if limit.Some? && limit.value < |s| then s[..limit.value] else s
  }

  /** The filter of a listing; an absent option does not restrict it. */
  function Listed(stream: Option<string>, fromSequence: Option<u64>, since: Option<string>): Event -> bool {
    (e: Event) =>
      && (stream.None? || e.stream == stream.value)
      && (fromSequence.None? || e.sequence > fromSequence.value)
      && (since.None? || StrLeq(since.value, e.createdAt))
  }

  function ListEvents(log: Log, stream: Option<string>, fromSequence: Option<u64>, since: Option<string>,
                      limit: Option<u64>): seq<Event>
  {
    Take(limit, Filter(Listed(stream, fromSequence, since), log.events))
  }
}
