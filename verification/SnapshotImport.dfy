/** Importing a logical snapshot: the header and record state machine, fed by the chunk loop. */
module SnapshotImport {
  import opened Prelude
  import opened Framing
  import opened Stores
  import opened Engine
  import O = Objects
  import E = EventLog
  import L = Links
  import Q = Queue

  /** A decoded line. `Other` is a record type the import does not support or a payload it cannot read. */
  datatype Record =
    | Header(version: string)
    | ObjectRecord(entry: O.Object)
    | EventRecord(event: E.Event)
    | LinkRecord(link: L.Link)
    | QueueRecord(job: Q.Job)
    | ErrorRecord
    | Other

  /** What the import takes from outside: JSON reading of bodies and of lines, and the clock, read anew for
      each record. */
  datatype Env = Env(parse: O.Parser, decode: Bytes -> Option<Record>, clock: nat -> string)

  datatype Counts = Counts(records: nat, objects: nat, events: nat, links: nat, queues: nat)

  datatype State = State(store: Store, headerSeen: bool, counts: Counts)

  function Start(store: Store): State {
    State(store, false, Counts(0, 0, 0, 0, 0))
  }

  predicate SupportedHeader(r: Record) {
    r.Header? && (r.version == "2.0.0" || r.version == "2.1.0")
  }

  /** What a record does to the store, at clock reading `now`; `false` rejects it. */
  function Stored(parse: O.Parser, s: Store, now: string, r: Record): (Store, bool) {
    match r
    case ObjectRecord(o) =>
      var (shelf, answer) := O.Put(parse, s.shelf, o, now);
      (s.(shelf := shelf), answer.Ok?)
    case EventRecord(e) => (s.(log := E.Append(s.log, e, now).0), true)
    case LinkRecord(l) =>
      var (table, answer) := L.Import(s.table, l);
      (s.(table := table), answer.Ok?)
    case QueueRecord(j) => (s.(queues := s.queues[j.queue := Q.Push(Q.JobsIn(s.queues, j.queue), j).0]), true)
    case _ => (s, false)
  }

  function Counted(c: Counts, r: Record): Counts {
    var c := c.(records := c.records + 1);
    match r
    case ObjectRecord(_) => c.(objects := c.objects + 1)
    case EventRecord(_) => c.(events := c.events + 1)
    case LinkRecord(_) => c.(links := c.links + 1)
    case QueueRecord(_) => c.(queues := c.queues + 1)
    case _ => c
  }

  /** Store and count one record; a rejected one leaves the state alone. */
  function Apply(env: Env, s: State, r: Record): (State, bool) {
    var (store, ok) := Stored(env.parse, s.store, env.clock(s.counts.records), r);
    if ok then (s.(store := store, counts := Counted(s.counts, r)), true) else (s, false)
  }

  /** The first record must be a supported header; the others are stored. */
  function Accept(env: Env, s: State, r: Record): (State, bool) {
    if s.headerSeen then Apply(env, s, r) else (s.(headerSeen := SupportedHeader(r)), SupportedHeader(r))
  }

  function Handle(env: Env, s: State, line: Bytes): (State, bool) {
    match env.decode(line)
    case Some(r) => Accept(env, s, r)
    case None => (s, false)
  }

  function HandlerOf(env: Env): Handler<State> {
    (s: State, line: Bytes) => Handle(env, s, line)
  }

  /** The whole import: the state reached and whether the snapshot is accepted. */
  function Imported(env: Env, store: Store, chunks: seq<Bytes>): (State, bool) {
    var (s, ok) := Streamed(HandlerOf(env), Start(store), chunks);
    (s, ok && s.headerSeen)
  }

  // ------------------------------------------------------------ the handler

  /** One complete, non-blank line within the limit, against the engine. */
  method ImportLine(engine: MemoryEngine, env: Env, seen: bool, counted: Counts, line: Bytes)
    returns (headerSeen: bool, counts: Counts, ok: bool)
    requires engine.parse == env.parse
    modifies engine
    ensures (State(engine.View(), headerSeen, counts), ok) ==
            Handle(env, State(old(engine.View()), seen, counted), line)
  {
    headerSeen, counts, ok := seen, counted, false;
    var record := env.decode(line);
    if record.None? {
      return;
    }
    if !headerSeen {
      ok := SupportedHeader(record.value);
      headerSeen := ok;
      return;
    }
    counts, ok := ImportRecord(engine, env, counted, record.value);
  }

  /** A record goes to the engine operation of its type. */
  method StoreRecord(engine: MemoryEngine, now: string, record: Record) returns (ok: bool)
    modifies engine
    ensures (engine.View(), ok) == Stored(engine.parse, old(engine.View()), now, record)
  {
    match record {
      case ObjectRecord(o) =>
        var r := engine.PutObject(o, now);
        return r.Ok?;
      case EventRecord(e) =>
        var stored := engine.AppendEvent(e, now);
        return true;
      case LinkRecord(l) =>
        var r := engine.ImportLink(l);
        return r.Ok?;
      case QueueRecord(j) =>
        var stored := engine.PushJob(j);
        return true;
      case _ =>
        return false;
    }
  }

  method ImportRecord(engine: MemoryEngine, env: Env, counted: Counts, record: Record)
    returns (counts: Counts, ok: bool)
    requires engine.parse == env.parse
    modifies engine
    ensures (State(engine.View(), true, counts), ok) == Apply(env, State(old(engine.View()), true, counted), record)
  {
    counts := counted;
    ok := StoreRecord(engine, env.clock(counted.records), record);
    if ok {
      counts := Counted(counted, record);
    } else {
      RejectedChangesNothing(env.parse, old(engine.View()), env.clock(counted.records), record);
    }
  }

  lemma RejectedChangesNothing(parse: O.Parser, s: Store, now: string, r: Record)
    ensures !Stored(parse, s, now, r).1 ==> Stored(parse, s, now, r).0 == s
  {
  }

  // ---------------------------------------------------------- the chunk loop

  /** Skip a blank line, reject one over the limit, import any other. */
  method DrainLine(engine: MemoryEngine, env: Env, seen: bool, counted: Counts, line: Bytes)
    returns (headerSeen: bool, counts: Counts, ok: bool)
    requires engine.parse == env.parse
    modifies engine
    ensures (State(engine.View(), headerSeen, counts), ok) ==
            Lines(HandlerOf(env), State(old(engine.View()), seen, counted), [line])
  {
    headerSeen, counts := seen, counted;
    SingleLine(HandlerOf(env), State(engine.View(), seen, counted), line);
    if IsBlank(line) {
      ok := true;
    } else if |line| > SNAPSHOT_MAX_LINE_BYTES {
      ok := false;
    } else {
      headerSeen, counts, ok := ImportLine(engine, env, seen, counted, line);
    }
  }

  lemma SingleLine<S>(h: Handler<S>, s: S, line: Bytes)
    ensures Lines(h, s, [line]) ==
            if IsBlank(line) then (s, true) else if |line| > SNAPSHOT_MAX_LINE_BYTES then (s, false) else h(s, line)
  {
    assert [line][1..] == [];
  }

  /** Drain the complete lines of the buffer: what is left is its unterminated rest. */
  method DrainLines(engine: MemoryEngine, env: Env, seen: bool, counted: Counts, full: Bytes)
    returns (headerSeen: bool, counts: Counts, buffer: Bytes, ok: bool)
    requires engine.parse == env.parse
    modifies engine
    ensures (State(engine.View(), headerSeen, counts), ok) ==
            Lines(HandlerOf(env), State(old(engine.View()), seen, counted), Complete(full))
    ensures ok ==> buffer == Tail(full)
  {
    headerSeen, counts, buffer := seen, counted, full;
    ghost var h := HandlerOf(env);
    ghost var goal := Lines(h, State(engine.View(), seen, counted), Complete(full));
    while NEWLINE in buffer
      invariant Lines(h, State(engine.View(), headerSeen, counts), Complete(buffer)) == goal
      invariant Tail(buffer) == Tail(full)
      decreases |buffer|
    {
      var newline := Position(NEWLINE, buffer);
      var line := buffer[..newline];
      DrainOne(h, State(engine.View(), headerSeen, counts), line, buffer[newline + 1..]);
      assert buffer == line + [NEWLINE] + buffer[newline + 1..];
      buffer := buffer[newline + 1..];
      headerSeen, counts, ok := DrainLine(engine, env, headerSeen, counts, line);
      if !ok {
        return;
      }
    }
    NoLine(buffer);
    ok := true;
  }

  /** What draining the first line of the buffer leaves to do. */
  lemma DrainOne<S>(h: Handler<S>, s: S, line: Bytes, rest: Bytes)
    requires NEWLINE !in line
    ensures var buffer := line + [NEWLINE] + rest;
      && Tail(buffer) == Tail(rest)
      && Lines(h, s, Complete(buffer)) ==
           var (s', ok) := Lines(h, s, [line]); if ok then Lines(h, s', Complete(rest)) else (s', false)
  {
    FirstLine(line, rest);
    LinesConcat(h, s, [line], Complete(rest));
  }

  lemma FirstLine(line: Bytes, rest: Bytes)
    requires NEWLINE !in line
    ensures var buffer := line + [NEWLINE] + rest;
      Complete(buffer) == [line] + Complete(rest) && Tail(buffer) == Tail(rest)
  {
    SplitFirst(NEWLINE, line, rest);
    InitAndLast(line, Split(NEWLINE, rest));
  }

  lemma InitAndLast(line: Bytes, more: seq<Bytes>)
    requires more != []
    ensures var all := [line] + more;
      all[..|all| - 1] == [line] + more[..|more| - 1] && all[|all| - 1] == more[|more| - 1]
  {
  }

  lemma NoLine(buffer: Bytes)
    requires NEWLINE !in buffer
    ensures Complete(buffer) == [] && Tail(buffer) == buffer
  {
    assert Split(NEWLINE, buffer) == [buffer];
  }

  /** The import of a streamed body into the engine. */
  method Import(engine: MemoryEngine, env: Env, chunks: seq<Bytes>) returns (counts: Counts, ok: bool)
    requires engine.parse == env.parse
    modifies engine
    ensures var (s, accepted) := Imported(env, old(engine.View()), chunks);
      engine.View() == s.store && counts == s.counts && ok == accepted
  {
    var buffer: Bytes := [];
    var headerSeen := false;
    counts := Counts(0, 0, 0, 0, 0);
    ghost var h, start := HandlerOf(env), Start(engine.View());
    for n := 0 to |chunks|
      invariant Received(h, start, chunks, n) == Progress(State(engine.View(), headerSeen, counts), buffer, true)
    {
      buffer := buffer + chunks[n];
      if |buffer| > SNAPSHOT_MAX_LINE_BYTES && NEWLINE !in buffer {
        ok := false;
        FailureIsFinal(h, start, chunks, n + 1);
        return;
      }
      headerSeen, counts, buffer, ok := DrainLines(engine, env, headerSeen, counts, buffer);
      if !ok {
        FailureIsFinal(h, start, chunks, n + 1);
        return;
      }
    }
    ok := IsBlank(buffer) && headerSeen;
  }

  lemma {:induction false} FailureIsFinal<S>(h: Handler<S>, s: S, chunks: seq<Bytes>, n: nat)
    requires n <= |chunks| && !Received(h, s, chunks, n).ok
    ensures Received(h, s, chunks, |chunks|) == Received(h, s, chunks, n)
    decreases |chunks| - n
  {
    if n < |chunks| {
      FailureIsFinal(h, s, chunks, n + 1);
    }
  }
}
