/** Importing the snapshot of one store into another: when it is accepted, and what the merged store is. */
module Merge {
  import opened Prelude
  import opened Ordering
  import opened Framing
  import opened Stores
  import opened SnapshotImport
  import opened SnapshotExport
  import opened Snapshots
  import opened ObjectMerge
  import Runs
  import O = Objects
  import E = EventLog
  import L = Links
  import Q = Queue

  // ------------------------------------------------------------------ links

  predicate IsNew(t: L.Table, l: L.Link) {
    L.Get(t, l.id).None?
  }

  function NewLinks(t: L.Table, ls: seq<L.Link>): seq<L.Link> {
    Filter((l: L.Link) => IsNew(t, l), ls)
  }

  /** The table has no other link under the id. */
  predicate LinkFits(t: L.Table, l: L.Link) {
    IsNew(t, l) || L.Get(t, l.id) == Some(l)
  }

  function ImportOver(t: L.Table, ls: seq<L.Link>): L.Table {
    if ls == [] then t else L.Import(ImportOver(t, ls[..|ls| - 1]), ls[|ls| - 1]).0
  }

  lemma GetBehind(a: L.Table, b: L.Table, more: seq<L.Link>, id: string)
    requires b.links == a.links + more && forall l :: l in more ==> l.id != id
    ensures L.Get(b, id) == L.Get(a, id)
  {
    assert forall k :: 0 <= k < |a.links| ==> b.links[k] == a.links[k];
    assert forall k :: |a.links| <= k < |b.links| ==> b.links[k] in more;
    assert L.IndexOf(a.links, id) < |a.links| ==> b.links[L.IndexOf(a.links, id)].id == id;
  }

  lemma NewLinksNext(t: L.Table, init: seq<L.Link>, l: L.Link)
    ensures NewLinks(t, init + [l]) == NewLinks(t, init) + if IsNew(t, l) then [l] else []
  {
    assert (init + [l])[..|init|] == init;
  }

  /** Importing behind the new ones: what the table says of the next id is what it said at first. */
  lemma NextLookup(t: L.Table, ls: seq<L.Link>, n: nat, r: L.Table)
    requires Pairwise(L.DiffId, ls) && n < |ls| && r.links == t.links + NewLinks(t, ls[..n])
    ensures L.Get(r, ls[n].id) == L.Get(t, ls[n].id)
  {
    forall l | l in NewLinks(t, ls[..n]) ensures l.id != ls[n].id {
      var i :| 0 <= i < n && ls[i] == l;
      assert L.DiffId(ls[i], ls[n]);
    }
    GetBehind(t, r, NewLinks(t, ls[..n]), ls[n].id);
  }

  /** The counter is raised as far as the new numbers ask, and no further. */
  ghost predicate Raised(t: L.Table, more: seq<L.Link>, r: L.Table) {
    && r.next >= t.next
    && (r.next == t.next || exists l :: l in more && L.LinkNumber(l.id) == Some(r.next))
  }

  /** The links in place, and behind them the new ones in order. */
  ghost predicate LinksMerged(t: L.Table, ls: seq<L.Link>, r: L.Table) {
    r.links == t.links + NewLinks(t, ls) && Raised(t, NewLinks(t, ls), r)
  }

  lemma RaisedMore(t: L.Table, more: seq<L.Link>, r: L.Table, l: L.Link)
    requires Raised(t, more, r) && l.id != "" && IsNew(r, l)
    ensures Raised(t, more + [l], L.Import(r, l).0)
  {
    assert l in more + [l] && forall x :: x in more ==> x in more + [l];
  }

  lemma OneMerged(t: L.Table, more: seq<L.Link>, r: L.Table, l: L.Link)
    requires l.id != "" && r.links == t.links + more && Raised(t, more, r) && L.Get(r, l.id) == L.Get(t, l.id)
    ensures var (r', answer) := L.Import(r, l);
      var more' := more + if IsNew(t, l) then [l] else [];
      r'.links == t.links + more' && Raised(t, more', r') && (answer.Ok? <==> LinkFits(t, l))
  {
    if IsNew(t, l) {
      RaisedMore(t, more, r, l);
    } else {
      assert more + [] == more;
    }
  }

  lemma LinkMerged(t: L.Table, ls: seq<L.Link>, n: nat, r: L.Table)
    requires Pairwise(L.DiffId, ls) && n < |ls| && ls[n].id != "" && LinksMerged(t, ls[..n], r)
    ensures var (r', answer) := L.Import(r, ls[n]);
      LinksMerged(t, ls[..n + 1], r') && (answer.Ok? <==> LinkFits(t, ls[n]))
  {
    NextLookup(t, ls, n, r);
    NewLinksNext(t, ls[..n], ls[n]);
    assert ls[..n + 1] == ls[..n] + [ls[n]];
    OneMerged(t, NewLinks(t, ls[..n]), r, ls[n]);
  }

  lemma ImportOverNext(t: L.Table, ls: seq<L.Link>, n: nat)
    requires n < |ls|
    ensures ImportOver(t, ls[..n + 1]) == L.Import(ImportOver(t, ls[..n]), ls[n]).0
  {
    assert ls[..n + 1][..n] == ls[..n];
  }

  ghost function MergedThen(t: L.Table, ls: seq<L.Link>): nat -> bool {
    (n: nat) => n <= |ls| && LinksMerged(t, ls[..n], ImportOver(t, ls[..n]))
  }

  lemma NoneMerged(t: L.Table, ls: seq<L.Link>)
    ensures MergedThen(t, ls)(0)
  {
    assert t.links + [] == t.links;
  }

  lemma MergedKept(t: L.Table, ls: seq<L.Link>, n: nat)
    requires Pairwise(L.DiffId, ls) && n < |ls| && ls[n].id != ""
    ensures Runs.Kept(MergedThen(t, ls), n)
  {
    if MergedThen(t, ls)(n) {
      ImportOverNext(t, ls, n);
      LinkMerged(t, ls, n, ImportOver(t, ls[..n]));
    }
  }

  lemma MergedUpTo(t: L.Table, ls: seq<L.Link>, n: nat)
    requires Pairwise(L.DiffId, ls) && n <= |ls| && forall l :: l in ls ==> l.id != ""
    ensures MergedThen(t, ls)(n)
  {
    NoneMerged(t, ls);
    forall m | 0 <= m < |ls| ensures Runs.Kept(MergedThen(t, ls), m) {
      assert ls[m] in ls;
      MergedKept(t, ls, m);
    }
    Runs.UpTo(MergedThen(t, ls), |ls|, n);
  }

  /** Importing links with distinct ids leaves those in place and adds exactly the new ones, in order. */
  lemma ImportMerges(t: L.Table, ls: seq<L.Link>, n: nat)
    requires Pairwise(L.DiffId, ls) && n <= |ls| && forall l :: l in ls ==> l.id != ""
    ensures LinksMerged(t, ls[..n], ImportOver(t, ls[..n]))
  {
    MergedUpTo(t, ls, n);
  }

  lemma {:induction false} ImportOverKeeps(t: L.Table, ls: seq<L.Link>)
    requires L.LinksOk(t)
    ensures L.LinksOk(ImportOver(t, ls))
  {
    if ls != [] {
      ImportOverKeeps(t, ls[..|ls| - 1]);
      L.ImportKeeps(ImportOver(t, ls[..|ls| - 1]), ls[|ls| - 1]);
    }
  }

  function LinksDone(s: State, table: L.Table, n: nat): State {
    State(s.store.(table := table), true, s.counts.(records := s.counts.records + n, links := s.counts.links + n))
  }

  function Fitting(t: L.Table, ls: seq<L.Link>): nat -> bool {
    (n: nat) => n < |ls| && LinkFits(t, ls[n])
  }

  function Tables(t: L.Table, ls: seq<L.Link>): nat -> L.Table {
    (n: nat) => ImportOver(t, if n <= |ls| then ls[..n] else ls)
  }

  /** The n-th link goes into the n-th table, unless that has another link under its id. */
  predicate ImportStep(ls: seq<L.Link>, tables: nat -> L.Table, good: nat -> bool, n: nat)
    requires n < |ls|
  {
    var (r, answer) := L.Import(tables(n), ls[n]);
    good(n) == answer.Ok? && tables(n + 1) == r
  }

  lemma ImportSettles(env: Env, t: State, ls: seq<L.Link>, tables: nat -> L.Table, good: nat -> bool,
                      done: nat -> State, record: L.Link -> Record, n: nat)
    requires n < |ls| && ImportStep(ls, tables, good, n) && record(ls[n]) == LinkRecord(ls[n])
    requires done(n) == LinksDone(t, tables(n), n) && done(n + 1) == LinksDone(t, tables(n + 1), n + 1)
    ensures Settled(AcceptorOf(env), done, record, good, ls, n)
  {
  }

  lemma ImportInOrder(env: Env, t: State, ls: seq<L.Link>, tables: nat -> L.Table, good: nat -> bool)
    requires t.headerSeen && tables(0) == t.store.table
    requires forall n :: 0 <= n < |ls| ==> ImportStep(ls, tables, good, n)
    ensures var (r, ok) := AcceptAll(AcceptorOf(env), t, LinkRecords(ls));
      (ok <==> AllGood(good, |ls|)) && (ok ==> r == LinksDone(t, tables(|ls|), |ls|))
  {
    var done := (n: nat) => LinksDone(t, tables(n), n);
    var record := (l: L.Link) => LinkRecord(l);
    forall n | 0 <= n < |ls| ensures Settled(AcceptorOf(env), done, record, good, ls, n) {
      ImportSettles(env, t, ls, tables, good, done, record, n);
    }
    AcceptWhile(AcceptorOf(env), done, record, good, ls);
  }

  lemma TablesStep(t: L.Table, ls: seq<L.Link>, n: nat)
    requires n < |ls| && Pairwise(L.DiffId, ls) && forall l :: l in ls ==> l.id != ""
    ensures ImportStep(ls, Tables(t, ls), Fitting(t, ls), n)
  {
    ImportMerges(t, ls, n);
    ImportOverNext(t, ls, n);
    assert ls[n] in ls;
    LinkMerged(t, ls, n, ImportOver(t, ls[..n]));
  }

  ghost predicate LinksFit(t: L.Table, ls: seq<L.Link>) {
    forall l :: l in ls ==> LinkFits(t, l)
  }

  lemma AllFitting(t: L.Table, ls: seq<L.Link>)
    ensures AllGood(Fitting(t, ls), |ls|) <==> LinksFit(t, ls)
  {
    if AllGood(Fitting(t, ls), |ls|) {
      forall l | l in ls ensures LinkFits(t, l) {
        var n :| 0 <= n < |ls| && ls[n] == l;
        assert Fitting(t, ls)(n);
      }
    }
  }

  lemma LinksPhase(env: Env, t: State, ls: seq<L.Link>)
    requires t.headerSeen && Pairwise(L.DiffId, ls) && forall l :: l in ls ==> l.id != ""
    ensures var (r, ok) := AcceptAll(AcceptorOf(env), t, LinkRecords(ls));
      && (ok <==> LinksFit(t.store.table, ls))
      && (ok ==> r == LinksDone(t, ImportOver(t.store.table, ls), |ls|))
  {
    var tables, good := Tables(t.store.table, ls), Fitting(t.store.table, ls);
    forall n | 0 <= n < |ls| ensures ImportStep(ls, tables, good, n) {
      TablesStep(t.store.table, ls, n);
    }
    assert ls[..0] == [] && ls[..|ls|] == ls;
    ImportInOrder(env, t, ls, tables, good);
    AllFitting(t.store.table, ls);
  }

  // ----------------------------------------------------------------- events

  function LogDone(s: State, log: E.Log, n: nat): State {
    State(s.store.(log := log), true, s.counts.(records := s.counts.records + n, events := s.counts.events + n))
  }

  function EventsDone(env: Env, s: State, es: seq<E.Event>): State {
    LogDone(s, E.AppendAll(s.store.log, es, Later(env.clock, s.counts.records)).0, |es|)
  }

  lemma AcceptEvent(env: Env, s: State, e: E.Event)
    requires s.headerSeen
    ensures Accept(env, s, EventRecord(e)) ==
            (State(s.store.(log := E.Append(s.store.log, e, env.clock(s.counts.records)).0), true,
                   s.counts.(records := s.counts.records + 1, events := s.counts.events + 1)), true)
  {
  }

  lemma EventStep(env: Env, s: State, es: seq<E.Event>, n: nat)
    requires n < |es|
    ensures Accept(env, EventsDone(env, s, es[..n]), EventRecord(es[n])) == (EventsDone(env, s, es[..n + 1]), true)
  {
    assert es[..n + 1][..n] == es[..n];
    AcceptEvent(env, EventsDone(env, s, es[..n]), es[n]);
  }

  lemma EventsPhase(env: Env, s: State, es: seq<E.Event>)
    requires s.headerSeen
    ensures AcceptAll(AcceptorOf(env), s, EventRecords(es)) == (EventsDone(env, s, es), true)
  {
    var done := (n: nat) => if n <= |es| then EventsDone(env, s, es[..n]) else s;
    var record := (e: E.Event) => EventRecord(e);
    forall n | 0 <= n < |es| ensures EachAccepted(AcceptorOf(env), done, record, es, n) {
      EventStep(env, s, es, n);
    }
    AcceptEach(AcceptorOf(env), done, record, es);
    assert EventRecords(es) == Map(record, es);
    assert es[..0] == [] && es[..|es|] == es;
  }

  /** The events that the log would not take for a replay. */
  function Unknown(log: E.Log, es: seq<E.Event>): (us: seq<E.Event>)
    ensures |us| <= |es|
  {
    Filter((e: E.Event) => E.Known(log, e).None?, es)
  }

  /** The same events under new sequences, from the one after `next`. */
  function Copies(next: u64, es: seq<E.Event>): (r: seq<E.Event>)
    requires next + |es| <= U64_MAX
    ensures |r| == |es|
  {
    seq(|es|, i requires 0 <= i < |es| => es[i].(sequence := next + 1 + i))
  }

  function KeysWith(keys: map<(string, string), u64>, next: u64, es: seq<E.Event>): map<(string, string), u64>
    requires next + |es| <= U64_MAX
  {
    if es == [] then keys else
      var e, before := es[|es| - 1], KeysWith(keys, next, es[..|es| - 1]);
      if e.key == "" then before else before[E.KeyOf(e) := next + |es|]
  }

  /** The log with these events behind its own, under new sequences. */
  function WithNew(log: E.Log, us: seq<E.Event>): E.Log
    requires log.next + |us| <= U64_MAX
  {
    E.Log(log.events + Copies(log.next, us), log.next + |us|, KeysWith(log.keys, log.next, us))
  }

  predicate CarriesKey(us: seq<E.Event>, k: (string, string)) {
    exists i :: 0 <= i < |us| && us[i].key != "" && E.KeyOf(us[i]) == k
  }

  lemma {:induction false} KeysElsewhere(keys: map<(string, string), u64>, next: u64, us: seq<E.Event>,
                                         k: (string, string))
    requires next + |us| <= U64_MAX && !CarriesKey(us, k)
    ensures var r := KeysWith(keys, next, us);
      (k in r <==> k in keys) && (k in keys ==> r[k] == keys[k])
  {
    if us != [] {
      var init := us[..|us| - 1];
      assert forall i :: 0 <= i < |init| ==> init[i] == us[i];
      KeysElsewhere(keys, next, init, k);
    }
  }

  lemma SequenceStill(log: E.Log, us: seq<E.Event>, sequence: u64)
    requires log.next + |us| <= U64_MAX && sequence <= log.next
    ensures var i, j := E.IndexOfSequence(log.events, sequence), E.IndexOfSequence(WithNew(log, us).events, sequence);
      if i < |log.events| then j == i else j == |WithNew(log, us).events|
  {
    var all := WithNew(log, us).events;
    assert forall k :: 0 <= k < |log.events| ==> all[k] == log.events[k];
    assert forall k :: |log.events| <= k < |all| ==> all[k].sequence > log.next;
  }

  /** New events do not change what is known of an event with another key. */
  lemma KnownStill(log: E.Log, us: seq<E.Event>, e: E.Event)
    requires E.LogOk(log) && log.next + |us| <= U64_MAX && (e.key != "" ==> !CarriesKey(us, E.KeyOf(e)))
    ensures E.Known(WithNew(log, us), e) == E.Known(log, e)
  {
    if e.key != "" {
      KeysElsewhere(log.keys, log.next, us, E.KeyOf(e));
      if E.KeyOf(e) in log.keys {
        SequenceStill(log, us, log.keys[E.KeyOf(e)]);
      }
    }
  }

  lemma AppendUnknown(log: E.Log, us: seq<E.Event>, e: E.Event, now: string)
    requires log.next + |us| < U64_MAX && e.createdAt != "" && E.Known(WithNew(log, us), e).None?
    ensures E.Append(WithNew(log, us), e, now).0 == WithNew(log, us + [e])
  {
    assert (us + [e])[..|us|] == us;
    assert Copies(log.next, us + [e]) == Copies(log.next, us) + [e.(sequence := log.next + |us| + 1)];
  }

  lemma UnknownNext(log: E.Log, es: seq<E.Event>, n: nat)
    requires n < |es|
    ensures Unknown(log, es[..n + 1]) == Unknown(log, es[..n]) + if E.Known(log, es[n]).None? then [es[n]] else []
  {
    assert es[..n + 1][..n] == es[..n];
  }

  lemma UnknownOfPrefix(log: E.Log, es: seq<E.Event>, n: nat)
    requires n <= |es|
    ensures |Unknown(log, es[..n])| <= |Unknown(log, es)|
  {
    assert es == es[..n] + es[n..];
    FilterConcat((e: E.Event) => E.Known(log, e).None?, es[..n], es[n..]);
  }

  lemma KeyIsFree(log: E.Log, es: seq<E.Event>, n: nat)
    requires OneKeyEach(es) && n < |es| && es[n].key != ""
    ensures !CarriesKey(Unknown(log, es[..n]), E.KeyOf(es[n]))
  {
    var us := Unknown(log, es[..n]);
    forall i | 0 <= i < |us| && us[i].key != "" ensures E.KeyOf(us[i]) != E.KeyOf(es[n]) {
      assert us[i] in us;
      var k :| 0 <= k < n && es[k] == us[i];
    }
  }

  ghost predicate AppendedTo(log: E.Log, es: seq<E.Event>, n: nat, r: E.Log)
    requires n <= |es|
  {
    log.next + |Unknown(log, es[..n])| <= U64_MAX && r == WithNew(log, Unknown(log, es[..n])) && E.LogOk(r)
  }

  lemma AppendedNext(log: E.Log, es: seq<E.Event>, n: nat, r: E.Log, now: string)
    requires E.LogOk(log) && OneKeyEach(es) && n < |es| && es[n].createdAt != ""
    requires log.next + |Unknown(log, es)| <= U64_MAX && AppendedTo(log, es, n, r)
    ensures AppendedTo(log, es, n + 1, E.Append(r, es[n], now).0)
  {
    var us, e := Unknown(log, es[..n]), es[n];
    UnknownNext(log, es, n);
    UnknownOfPrefix(log, es, n + 1);
    if e.key != "" {
      KeyIsFree(log, es, n);
    }
    KnownStill(log, us, e);
    E.AppendKeepsOrder(r, e, now);
    if E.Known(log, e).None? {
      AppendUnknown(log, us, e, now);
    } else {
      assert us + [] == us;
    }
  }

  ghost function AppendedThen(log: E.Log, es: seq<E.Event>, clock: nat -> string): nat -> bool {
    (n: nat) => n <= |es| && AppendedTo(log, es, n, E.AppendAll(log, es[..n], clock).0)
  }

  lemma NoneAppended(log: E.Log, es: seq<E.Event>, clock: nat -> string)
    requires E.LogOk(log)
    ensures AppendedThen(log, es, clock)(0)
  {
    assert log.events + Copies(log.next, []) == log.events;
  }

  lemma AppendAllNext(log: E.Log, es: seq<E.Event>, n: nat, clock: nat -> string)
    requires n < |es|
    ensures E.AppendAll(log, es[..n + 1], clock).0 ==
            E.Append(E.AppendAll(log, es[..n], clock).0, es[n], clock(n)).0
  {
    assert es[..n + 1][..n] == es[..n];
  }

  lemma AppendedKept(log: E.Log, es: seq<E.Event>, clock: nat -> string, n: nat)
    requires E.LogOk(log) && OneKeyEach(es) && n < |es| && es[n].createdAt != ""
    requires log.next + |Unknown(log, es)| <= U64_MAX
    ensures Runs.Kept(AppendedThen(log, es, clock), n)
  {
    if AppendedThen(log, es, clock)(n) {
      AppendAllNext(log, es, n, clock);
      AppendedNext(log, es, n, E.AppendAll(log, es[..n], clock).0, clock(n));
    }
  }

  /** Appending events that share no key adds exactly those the log does not know, in order, under new sequences. */
  lemma NewAppended(log: E.Log, es: seq<E.Event>, clock: nat -> string)
    requires E.LogOk(log) && OneKeyEach(es) && log.next + |Unknown(log, es)| <= U64_MAX
    requires forall e :: e in es ==> e.createdAt != ""
    ensures E.AppendAll(log, es, clock).0 == WithNew(log, Unknown(log, es)) && E.LogOk(WithNew(log, Unknown(log, es)))
  {
    var appended := AppendedThen(log, es, clock);
    NoneAppended(log, es, clock);
    forall n | 0 <= n < |es| ensures Runs.Kept(appended, n) {
      assert es[n] in es;
      AppendedKept(log, es, clock, n);
    }
    Runs.UpTo(appended, |es|, |es|);
    assert es[..|es|] == es;
  }

  // ----------------------------------------------------------------- queues

  function PushAll(q: seq<Q.Job>, js: seq<Q.Job>): seq<Q.Job> {
    if js == [] then q else Q.Push(PushAll(q, js[..|js| - 1]), js[|js| - 1]).0
  }

  lemma {:induction false} PushConcat(q: seq<Q.Job>, a: seq<Q.Job>, b: seq<Q.Job>)
    ensures PushAll(q, a + b) == PushAll(PushAll(q, a), b)
  {
    if b == [] {
      assert a + b == a;
    } else {
      assert (a + b)[..|a + b| - 1] == a + b[..|b| - 1];
      PushConcat(q, a, b[..|b| - 1]);
    }
  }

  /** State `s` with the queues replaced and `n` queue records counted. */
  function QueuesDone(s: State, queues: Q.Queues, n: nat): State {
    State(s.store.(queues := queues), true, s.counts.(records := s.counts.records + n, queues := s.counts.queues + n))
  }

  /** The queues after pushing these jobs, all of the queue `name`. */
  function Pushed(queues: Q.Queues, name: string, js: seq<Q.Job>): Q.Queues {
    if js == [] then queues else queues[name := PushAll(Q.JobsIn(queues, name), js)]
  }

  lemma AcceptJob(env: Env, s: State, queues: Q.Queues, n: nat, j: Q.Job)
    ensures Accept(env, QueuesDone(s, queues, n), QueueRecord(j)) ==
            (QueuesDone(s, queues[j.queue := Q.Push(Q.JobsIn(queues, j.queue), j).0], n + 1), true)
  {
  }

  lemma JobStep(env: Env, s: State, name: string, js: seq<Q.Job>, n: nat)
    requires n < |js| && js[n].queue == name
    ensures Accept(env, QueuesDone(s, Pushed(s.store.queues, name, js[..n]), n), QueueRecord(js[n])) ==
            (QueuesDone(s, Pushed(s.store.queues, name, js[..n + 1]), n + 1), true)
  {
    var before := Pushed(s.store.queues, name, js[..n]);
    assert js[..n + 1][..n] == js[..n];
    AcceptJob(env, s, before, n, js[n]);
    assert Pushed(s.store.queues, name, js[..n + 1]) == before[name := Q.Push(Q.JobsIn(before, name), js[n]).0];
  }

  lemma OneQueue(env: Env, s: State, name: string, js: seq<Q.Job>)
    requires s.headerSeen && forall j :: j in js ==> j.queue == name
    ensures AcceptAll(AcceptorOf(env), s, QueueRecords(js)) ==
            (QueuesDone(s, Pushed(s.store.queues, name, js), |js|), true)
  {
    var done := (n: nat) => if n <= |js| then QueuesDone(s, Pushed(s.store.queues, name, js[..n]), n) else s;
    var record := (j: Q.Job) => QueueRecord(j);
    forall n | 0 <= n < |js| ensures EachAccepted(AcceptorOf(env), done, record, js, n) {
      JobStep(env, s, name, js, n);
    }
    AcceptEach(AcceptorOf(env), done, record, js);
    assert QueueRecords(js) == Map(record, js);
    assert js[..0] == [] && js[..|js|] == js;
  }

  /** The jobs whose ids the queue does not have. */
  function NewJobs(q: seq<Q.Job>, js: seq<Q.Job>): seq<Q.Job> {
    Filter((j: Q.Job) => Q.Find(q, j.id).None?, js)
  }

  lemma NewJobsNext(q: seq<Q.Job>, init: seq<Q.Job>, j: Q.Job)
    ensures NewJobs(q, init + [j]) == NewJobs(q, init) + if Q.Find(q, j.id).None? then [j] else []
  {
    assert (init + [j])[..|init|] == init;
  }

  lemma FindBehind(q: seq<Q.Job>, more: seq<Q.Job>, id: string)
    requires forall j :: j in more ==> j.id != id
    ensures Q.Find(q + more, id) == Q.Find(q, id)
  {
    var all := q + more;
    assert forall k :: 0 <= k < |q| ==> all[k] == q[k];
    assert forall k :: |q| <= k < |all| ==> all[k] in more;
    assert Q.IndexOf(q, id) < |q| ==> all[Q.IndexOf(q, id)].id == id;
  }

  lemma PushNewNext(q: seq<Q.Job>, init: seq<Q.Job>, j: Q.Job)
    requires Q.DistinctIds(init + [j]) && PushAll(q, init) == q + NewJobs(q, init)
    ensures PushAll(q, init + [j]) == q + NewJobs(q, init + [j])
  {
    var js, more := init + [j], NewJobs(q, init);
    assert js[..|js| - 1] == init;
    NewJobsNext(q, init, j);
    forall x | x in more ensures x.id != j.id {
      var i :| 0 <= i < |init| && init[i] == x;
      assert Q.DiffId(js[i], js[|init|]);
    }
    FindBehind(q, more, j.id);
    assert q + more + [j] == q + (more + [j]) && more + [] == more;
  }

  lemma {:induction false} PushNew(q: seq<Q.Job>, js: seq<Q.Job>)
    requires Q.DistinctIds(js)
    ensures PushAll(q, js) == q + NewJobs(q, js)
  {
    if js == [] {
      assert q + [] == q;
    } else {
      PushNew(q, js[..|js| - 1]);
      assert js == js[..|js| - 1] + [js[|js| - 1]];
      PushNewNext(q, js[..|js| - 1], js[|js| - 1]);
    }
  }

  /** Pushing jobs whose ids are there changes nothing. */
  lemma {:induction false} PushPresent(q: seq<Q.Job>, js: seq<Q.Job>)
    requires forall j :: j in js ==> Q.Find(q, j.id).Some?
    ensures PushAll(q, js) == q
  {
    if js != [] {
      PushPresent(q, js[..|js| - 1]);
      assert js[|js| - 1] in js;
    }
  }

  /** A queue of the target, and behind it the jobs of the snapshot whose ids it does not have. */
  function MergedJobs(t: Q.Queues, s: Q.Queues, name: string): seq<Q.Job> {
    Q.JobsIn(t, name) + NewJobs(Q.JobsIn(t, name), Q.JobsIn(s, name))
  }

  lemma MergedHas(q: seq<Q.Job>, js: seq<Q.Job>, j: Q.Job)
    requires j in js
    ensures Q.Find(q + NewJobs(q, js), j.id).Some?
  {
    var all := q + NewJobs(q, js);
    if Q.Find(q, j.id).Some? {
      assert all[Q.IndexOf(q, j.id)].id == j.id;
    } else {
      assert j in NewJobs(q, js);
      assert j in all;
      var i :| 0 <= i < |all| && all[i] == j;
    }
  }

  /** The dead jobs, listed twice, are pushed once. */
  lemma ListedMerged(t: Q.Queues, s: Q.Queues, name: string)
    requires Q.DistinctIds(Q.JobsIn(s, name))
    ensures PushAll(Q.JobsIn(t, name), ListedJobs(s, name)) == MergedJobs(t, s, name)
  {
    var q, jobs := Q.JobsIn(t, name), Q.JobsIn(s, name);
    PushConcat(q, jobs, DeadJobs(jobs));
    PushNew(q, jobs);
    forall j | j in DeadJobs(jobs) ensures Q.Find(q + NewJobs(q, jobs), j.id).Some? {
      MergedHas(q, jobs, j);
    }
    PushPresent(q + NewJobs(q, jobs), DeadJobs(jobs));
  }

  /** The queues after pushing the listings of the first `n` names. */
  function QueuesOver(t: Q.Queues, s: Q.Queues, names: seq<string>, n: nat): Q.Queues
    requires n <= |names|
  {
    if n == 0 then t else Pushed(QueuesOver(t, s, names, n - 1), names[n - 1], ListedJobs(s, names[n - 1]))
  }

  ghost predicate QueueOverAt(t: Q.Queues, s: Q.Queues, names: seq<string>, n: nat, name: string)
    requires n <= |names|
  {
    var r := QueuesOver(t, s, names, n);
    && (name in r <==> name in t || name in names[..n])
    && Q.JobsIn(r, name) == if name in names[..n] then MergedJobs(t, s, name) else Q.JobsIn(t, name)
  }

  lemma PushedAt(queues: Q.Queues, pushed: string, js: seq<Q.Job>, name: string)
    requires js != []
    ensures name in Pushed(queues, pushed, js) <==> name in queues || name == pushed
    ensures Q.JobsIn(Pushed(queues, pushed, js), name) ==
            if name == pushed then PushAll(Q.JobsIn(queues, name), js) else Q.JobsIn(queues, name)
  {
  }

  lemma NamedNext(names: seq<string>, n: nat, name: string)
    requires n < |names| && Pairwise(StrLess, names)
    ensures name in names[..n + 1] <==> name in names[..n] || name == names[n]
    ensures names[n] !in names[..n]
  {
    NewName(names, n);
    assert names[..n + 1] == names[..n] + [names[n]];
  }

  lemma QueueOverNext(t: Q.Queues, s: Q.Queues, names: seq<string>, n: nat, name: string)
    requires QueuesOk(s) && Pairwise(StrLess, names) && n < |names| && names[n] in s
    requires QueueOverAt(t, s, names, n, name)
    ensures QueueOverAt(t, s, names, n + 1, name)
  {
    NamedNext(names, n, name);
    ListedInQueue(s, names[n]);
    PushedAt(QueuesOver(t, s, names, n), names[n], ListedJobs(s, names[n]), name);
    if name == names[n] {
      ListedMerged(t, s, name);
    }
  }

  ghost function QueueOverThen(t: Q.Queues, s: Q.Queues, names: seq<string>, name: string): nat -> bool {
    (n: nat) => n <= |names| && QueueOverAt(t, s, names, n, name)
  }

  lemma QueueOverKept(t: Q.Queues, s: Q.Queues, names: seq<string>, name: string, n: nat)
    requires QueuesOk(s) && Pairwise(StrLess, names) && n < |names| && names[n] in s
    ensures Runs.Kept(QueueOverThen(t, s, names, name), n)
  {
    if QueueOverThen(t, s, names, name)(n) {
      QueueOverNext(t, s, names, n, name);
    }
  }

  lemma QueueOver(t: Q.Queues, s: Q.Queues, names: seq<string>, name: string)
    requires QueuesOk(s) && Pairwise(StrLess, names) && forall x :: x in names ==> x in s
    ensures QueueOverThen(t, s, names, name)(|names|)
  {
    forall n | 0 <= n < |names| ensures Runs.Kept(QueueOverThen(t, s, names, name), n) {
      assert names[n] in names;
      QueueOverKept(t, s, names, name, n);
    }
    assert QueueOverThen(t, s, names, name)(0);
    Runs.UpTo(QueueOverThen(t, s, names, name), |names|, |names|);
  }

  function MergedQueues(t: Q.Queues, s: Q.Queues): Q.Queues {
    map name | name in t.Keys + s.Keys :: MergedJobs(t, s, name)
  }

  lemma QueueMerged(t: Q.Queues, s: Q.Queues, names: seq<string>, name: string)
    requires QueuesOk(s) && Pairwise(StrLess, names) && forall x :: x in names <==> x in s
    ensures var r, m := QueuesOver(t, s, names, |names|), MergedQueues(t, s);
      (name in r <==> name in m) && Q.JobsIn(r, name) == Q.JobsIn(m, name)
  {
    QueueOver(t, s, names, name);
    assert names[..|names|] == names;
    if name !in s {
      assert NewJobs(Q.JobsIn(t, name), []) == [];
    }
  }

  lemma SameQueues(a: Q.Queues, b: Q.Queues)
    requires forall name :: (name in a <==> name in b) && Q.JobsIn(a, name) == Q.JobsIn(b, name)
    ensures a == b
  {
    forall name | name in a ensures a[name] == b[name] {
      assert Q.JobsIn(a, name) == Q.JobsIn(b, name);
    }
  }

  lemma AllQueuesMerged(t: Q.Queues, s: Q.Queues, names: seq<string>)
    requires QueuesOk(s) && names == Ascending(s.Keys)
    ensures QueuesOver(t, s, names, |names|) == MergedQueues(t, s)
  {
    AscendingIsStrict(s.Keys);
    var r, m := QueuesOver(t, s, names, |names|), MergedQueues(t, s);
    forall name ensures (name in r <==> name in m) && Q.JobsIn(r, name) == Q.JobsIn(m, name) {
      QueueMerged(t, s, names, name);
    }
    SameQueues(r, m);
  }

  function QueuesUpTo(t: State, s: Q.Queues, names: seq<string>, n: nat): State
    requires n <= |names|
  {
    QueuesDone(t, QueuesOver(t.store.queues, s, names, n), |AllJobs(s, names, n)|)
  }

  lemma DoneTwice(s: State, q1: Q.Queues, n1: nat, q2: Q.Queues, n2: nat)
    ensures QueuesDone(QueuesDone(s, q1, n1), q2, n2) == QueuesDone(s, q2, n1 + n2)
  {
  }

  lemma UpToNext(t: State, s: Q.Queues, names: seq<string>, n: nat)
    requires n < |names|
    ensures QueuesDone(QueuesUpTo(t, s, names, n),
                       Pushed(QueuesOver(t.store.queues, s, names, n), names[n], ListedJobs(s, names[n])),
                       |ListedJobs(s, names[n])|) ==
            QueuesUpTo(t, s, names, n + 1)
  {
    JobsOneMore(s, names, n);
    DoneTwice(t, QueuesOver(t.store.queues, s, names, n), |AllJobs(s, names, n)|,
              QueuesOver(t.store.queues, s, names, n + 1), |ListedJobs(s, names[n])|);
  }

  /** The listing of the n-th queue takes the state `done` of its place to that of the next. */
  predicate ListingAccepted(f: Acceptor<State, Record>, done: nat -> State, s: Q.Queues, names: seq<string>, n: nat)
    requires n < |names|
  {
    AcceptAll(f, done(n), QueueRecords(ListedJobs(s, names[n]))) == (done(n + 1), true)
  }

  lemma ListingsAccepted(f: Acceptor<State, Record>, done: nat -> State, s: Q.Queues, names: seq<string>)
    requires forall n :: 0 <= n < |names| ==> ListingAccepted(f, done, s, names, n)
    ensures AcceptAll(f, done(0), QueueRecords(AllJobs(s, names, |names|))) == (done(|names|), true)
  {
    var records := name => QueueRecords(ListedJobs(s, name));
    forall n | 0 <= n < |names| ensures GroupAccepted(f, done, records, names, n) {
      assert ListingAccepted(f, done, s, names, n);
    }
    AcceptGroups(f, done, records, names);
    RecordsOfAll(s, records, names, |names|);
    assert names[..|names|] == names;
  }

  function QueueStates(t: State, s: Q.Queues, names: seq<string>): nat -> State {
    (n: nat) => if n <= |names| then QueuesUpTo(t, s, names, n) else t
  }

  lemma QueueAccepted(env: Env, t: State, s: Q.Queues, names: seq<string>, n: nat)
    requires QueuesOk(s) && n < |names| && names[n] in s
    ensures ListingAccepted(AcceptorOf(env), QueueStates(t, s, names), s, names, n)
  {
    ListedInQueue(s, names[n]);
    UpToNext(t, s, names, n);
    OneQueue(env, QueuesUpTo(t, s, names, n), names[n], ListedJobs(s, names[n]));
  }

  lemma QueuesEnds(t: State, s: Store, names: seq<string>)
    requires t.headerSeen && QueuesOk(s.queues) && names == Ascending(s.queues.Keys)
    ensures QueueStates(t, s.queues, names)(0) == t
    ensures QueueStates(t, s.queues, names)(|names|) ==
            QueuesDone(t, MergedQueues(t.store.queues, s.queues), |ExportedJobs(s)|)
  {
    NoQueuesYet(t, s.queues, names);
    AllQueuesMerged(t.store.queues, s.queues, names);
    assert QueueStates(t, s.queues, names)(|names|) == QueuesUpTo(t, s.queues, names, |names|);
  }

  lemma NoQueuesYet(t: State, s: Q.Queues, names: seq<string>)
    requires t.headerSeen
    ensures QueueStates(t, s, names)(0) == t
  {
    assert QueueStates(t, s, names)(0) == QueuesUpTo(t, s, names, 0);
  }

  lemma QueuesPhase(env: Env, t: State, s: Store)
    requires t.headerSeen && QueuesOk(s.queues)
    ensures AcceptAll(AcceptorOf(env), t, QueueRecords(ExportedJobs(s))) ==
            (QueuesDone(t, MergedQueues(t.store.queues, s.queues), |ExportedJobs(s)|), true)
  {
    var names := Ascending(s.queues.Keys);
    var done := QueueStates(t, s.queues, names);
    QueuesEnds(t, s, names);
    forall n | 0 <= n < |names| ensures ListingAccepted(AcceptorOf(env), done, s.queues, names, n) {
      assert names[n] in names;
      QueueAccepted(env, t, s.queues, names, n);
    }
    ListingsAccepted(AcceptorOf(env), done, s.queues, names);
  }

  // ------------------------------------------------------- the merged store

  /** The objects of the snapshot over those in place, one version on; the indexes of the target. */
  ghost predicate ShelfMerged(s: O.Shelf, t: O.Shelf, r: O.Shelf) {
    && r.indexes == t.indexes
    && (forall k :: k in s.objects ==> k in r.objects && Overwrites(s.objects[k], ObjectAt(t, k), r.objects[k]))
    && (forall k :: k in s.objects ==> VectorOf(r.vectors, k) == s.objects[k].vector)
    && (forall k :: k !in s.objects ==>
          ObjectAt(r, k) == ObjectAt(t, k) && VectorOf(r.vectors, k) == VectorOf(t.vectors, k))
  }

  predicate Overwrites(o: O.Object, before: Option<O.Object>, r: O.Object) {
    r == o.(version := if before.Some? then Increment(before.value.version) else 1, updatedAt := r.updatedAt)
  }

  lemma MergedThere(s: O.Shelf, t: O.Shelf, os: seq<O.Object>, clock: nat -> string, k: O.Key)
    requires ListsAll(s.objects, os) && Keyed(s.objects) && k in s.objects && s.objects[k].createdAt != ""
    ensures var r := OverAll(t, os, clock);
      && k in r.objects && Overwrites(s.objects[k], ObjectAt(t, k), r.objects[k])
      && VectorOf(r.vectors, k) == s.objects[k].vector
  {
    KeysDiffer(os);
    var i := Place(s.objects, os, k);
    OverThere(t, os, clock, i);
  }

  lemma MergedElsewhere(s: O.Shelf, t: O.Shelf, os: seq<O.Object>, clock: nat -> string, k: O.Key)
    requires ListsAll(s.objects, os) && k !in s.objects
    ensures var r := OverAll(t, os, clock);
      ObjectAt(r, k) == ObjectAt(t, k) && VectorOf(r.vectors, k) == VectorOf(t.vectors, k)
  {
    forall i | 0 <= i < |os| ensures os[i].key != k {
      PlacedAt(s.objects, os, i);
    }
    OverElsewhere(t, os, clock, k);
  }

  lemma ObjectsMerged(s: O.Shelf, t: O.Shelf, os: seq<O.Object>, clock: nat -> string)
    requires ListsAll(s.objects, os) && Keyed(s.objects)
    requires forall k :: k in s.objects ==> s.objects[k].createdAt != ""
    ensures ShelfMerged(s, t, OverAll(t, os, clock))
  {
    var r := OverAll(t, os, clock);
    OverKeepsIndexes(t, os, clock);
    forall k | k in s.objects
      ensures k in r.objects && Overwrites(s.objects[k], ObjectAt(t, k), r.objects[k])
      ensures VectorOf(r.vectors, k) == s.objects[k].vector
    {
      MergedThere(s, t, os, clock, k);
    }
    forall k | k !in s.objects
      ensures ObjectAt(r, k) == ObjectAt(t, k) && VectorOf(r.vectors, k) == VectorOf(t.vectors, k)
    {
      MergedElsewhere(s, t, os, clock, k);
    }
  }

  /** No unique index of the target blocks an object of the snapshot, and no link of the target has the id of a
      different link of the snapshot. */
  ghost predicate Compatible(parse: O.Parser, s: Store, t: Store) {
    ObjectsFit(parse, s.shelf.objects, t.shelf) && LinksFit(t.table, s.table.links)
  }

  /** The sequences of the target have room for the events it does not know. */
  ghost predicate HasRoomFor(s: Store, t: Store) {
    t.log.next + |Unknown(t.log, s.log.events)| <= U64_MAX
  }

  /** The target `t` with the snapshot of `s` imported into it. */
  ghost predicate Merged(s: Store, t: Store, r: Store)
    requires HasRoomFor(s, t)
  {
    && ShelfMerged(s.shelf, t.shelf, r.shelf) && LinksMerged(t.table, Sort(L.ById, s.table.links), r.table)
    && r.log == WithNew(t.log, Unknown(t.log, s.log.events)) && r.queues == MergedQueues(t.queues, s.queues)
  }

  lemma SortedFits(s: L.Table, t: L.Table)
    ensures LinksFit(t, Sort(L.ById, s.links)) <==> LinksFit(t, s.links)
  {
    var ls := Sort(L.ById, s.links);
    SortPermutes(L.ById, s.links);
    forall l ensures l in ls <==> l in s.links {
      assert l in multiset(ls) <==> l in multiset(s.links);
    }
  }

  lemma PartsAccepted(f: Acceptor<State, Record>, s0: State, s1: State, s2: State, s3: State, s4: State, s5: State,
                      a: seq<Record>, b: seq<Record>, c: seq<Record>, d: seq<Record>, first: bool, second: bool)
    requires AcceptAll(f, s0, [Header(SNAPSHOT_VERSION)]) == (s1, true)
    requires var (r, ok) := AcceptAll(f, s1, a); ok == first && (ok ==> r == s2)
    requires var (r, ok) := AcceptAll(f, s2, b); ok == second && (ok ==> r == s3)
    requires AcceptAll(f, s3, c) == (s4, true) && AcceptAll(f, s4, d) == (s5, true)
    ensures var (r, ok) := AcceptAll(f, s0, [Header(SNAPSHOT_VERSION)] + a + b + c + d);
      ok == (first && second) && (ok ==> r == s5)
  {
    var h := [Header(SNAPSHOT_VERSION)];
    AcceptAllConcat(f, s0, h, a);
    AcceptAllConcat(f, s0, h + a, b);
    AcceptAllConcat(f, s0, h + a + b, c);
    AcceptAllConcat(f, s0, h + a + b + c, d);
  }

  function AfterObjects(env: Env, s: Store, t: Store): State {
    ShelfDone(AfterHeader(t), OverAll(t.shelf, ExportedObjects(s), Later(env.clock, 0)), |ExportedObjects(s)|)
  }

  function AfterLinks(env: Env, s: Store, t: Store): State {
    var ls := Sort(L.ById, s.table.links);
    LinksDone(AfterObjects(env, s, t), ImportOver(t.table, ls), |ls|)
  }

  function AfterEvents(env: Env, s: Store, t: Store): State {
    EventsDone(env, AfterLinks(env, s, t), s.log.events)
  }

  /** The state that the import of the snapshot of `s` into `t` ends in, if it is accepted. */
  function Final(env: Env, s: Store, t: Store): State {
    QueuesDone(AfterEvents(env, s, t), MergedQueues(t.queues, s.queues), |ExportedJobs(s)|)
  }

  lemma ObjectsAccepted(env: Env, s: Store, t: Store)
    requires O.ShelfOk(env.parse, s.shelf)
    ensures var (r, ok) := AcceptAll(AcceptorOf(env), AfterHeader(t), ObjectRecords(ExportedObjects(s)));
      (ok <==> ObjectsFit(env.parse, s.shelf.objects, t.shelf)) && (ok ==> r == AfterObjects(env, s, t))
  {
    ExportedObjectsFacts(env.parse, s);
    ObjectsPhase(env, AfterHeader(t), s.shelf.objects, ExportedObjects(s));
  }

  lemma LinksAccepted(env: Env, s: Store, t: Store)
    requires L.LinksOk(s.table)
    ensures var ls := Sort(L.ById, s.table.links);
      var (r, ok) := AcceptAll(AcceptorOf(env), AfterObjects(env, s, t), LinkRecords(ls));
      (ok <==> LinksFit(t.table, s.table.links)) && (ok ==> r == AfterLinks(env, s, t))
  {
    SortedLinks(s.table);
    SortedFits(s.table, t.table);
    LinksPhase(env, AfterObjects(env, s, t), Sort(L.ById, s.table.links));
  }

  lemma JobsAccepted(env: Env, s: Store, t: Store)
    requires QueuesOk(s.queues)
    ensures AcceptAll(AcceptorOf(env), AfterEvents(env, s, t), QueueRecords(ExportedJobs(s))) ==
            (Final(env, s, t), true)
  {
    QueuesPhase(env, AfterEvents(env, s, t), s);
  }

  lemma RecordsAccepted(env: Env, s: Store, t: Store)
    requires StoreOk(env.parse, s)
    ensures var (r, ok) := AcceptAll(AcceptorOf(env), Start(t), Records(s));
      (ok <==> Compatible(env.parse, s, t)) && (ok ==> r == Final(env, s, t))
  {
    var f, s2, s3, s4 := AcceptorOf(env), AfterObjects(env, s, t), AfterLinks(env, s, t), AfterEvents(env, s, t);
    HeaderAccepted(env, t);
    ObjectsAccepted(env, s, t);
    LinksAccepted(env, s, t);
    EventsPhase(env, s3, s.log.events);
    JobsAccepted(env, s, t);
    RecordsInParts(s);
    PartsAccepted(f, Start(t), AfterHeader(t), s2, s3, s4, Final(env, s, t), ObjectRecords(ExportedObjects(s)),
                  LinkRecords(Sort(L.ById, s.table.links)), EventRecords(s.log.events),
                  QueueRecords(ExportedJobs(s)), ObjectsFit(env.parse, s.shelf.objects, t.shelf),
                  LinksFit(t.table, s.table.links));
  }

  lemma FinalStore(env: Env, s: Store, t: Store) returns (clock: nat -> string)
    ensures Final(env, s, t).store ==
            Store(OverAll(t.shelf, ExportedObjects(s), Later(env.clock, 0)),
                  E.AppendAll(t.log, s.log.events, clock).0,
                  ImportOver(t.table, Sort(L.ById, s.table.links)), MergedQueues(t.queues, s.queues))
  {
    clock := Later(env.clock, AfterLinks(env, s, t).counts.records);
  }

  lemma FinalShelf(env: Env, s: Store, t: Store)
    requires O.ShelfOk(env.parse, s.shelf)
    ensures ShelfMerged(s.shelf, t.shelf, OverAll(t.shelf, ExportedObjects(s), Later(env.clock, 0)))
  {
    ExportedObjectsFacts(env.parse, s);
    ObjectsMerged(s.shelf, t.shelf, ExportedObjects(s), Later(env.clock, 0));
  }

  lemma FinalLinks(s: L.Table, t: L.Table)
    requires L.LinksOk(s)
    ensures LinksMerged(t, Sort(L.ById, s.links), ImportOver(t, Sort(L.ById, s.links)))
  {
    var ls := Sort(L.ById, s.links);
    SortedLinks(s);
    ImportMerges(t, ls, |ls|);
    assert ls[..|ls|] == ls;
  }

  lemma EventsStayStamped(log: E.Log, us: seq<E.Event>)
    requires EventsStamped(log) && log.next + |us| <= U64_MAX && forall e :: e in us ==> e.createdAt != ""
    ensures EventsStamped(WithNew(log, us))
  {
    var copies := Copies(log.next, us);
    forall e | e in copies ensures e.createdAt != "" {
      var i :| 0 <= i < |copies| && copies[i] == e;
      assert us[i] in us;
    }
  }

  lemma FinalLog(s: E.Log, t: E.Log, clock: nat -> string)
    requires E.LogOk(s) && EventsStamped(s) && E.LogOk(t) && EventsStamped(t)
    requires t.next + |Unknown(t, s.events)| <= U64_MAX
    ensures var r := E.AppendAll(t, s.events, clock).0;
      r == WithNew(t, Unknown(t, s.events)) && E.LogOk(r) && EventsStamped(r)
  {
    EventsFit(s);
    NewAppended(t, s.events, clock);
    EventsStayStamped(t, Unknown(t, s.events));
  }

  lemma FinalMerges(env: Env, s: Store, t: Store)
    requires StoreOk(env.parse, s) && StoreOk(env.parse, t) && HasRoomFor(s, t)
    ensures Merged(s, t, Final(env, s, t).store)
  {
    var clock := FinalStore(env, s, t);
    FinalShelf(env, s, t);
    FinalLinks(s.table, t.table);
    FinalLog(s.log, t.log, clock);
  }

  lemma JobsStayDistinct(q: seq<Q.Job>, js: seq<Q.Job>)
    requires Q.DistinctIds(q) && Q.DistinctIds(js)
    ensures Q.DistinctIds(q + NewJobs(q, js))
  {
    var more := NewJobs(q, js);
    var all := q + more;
    FilterPairwise((j: Q.Job) => Q.Find(q, j.id).None?, Q.DiffId, js);
    forall i, k | 0 <= i < k < |all| ensures Q.DiffId(all[i], all[k]) {
      if i < |q| <= k {
        assert more[k - |q|] in more;
        assert Q.IndexOf(q, more[k - |q|].id) == |q|;
      } else if k < |q| {
        assert Q.DiffId(q[i], q[k]);
      } else {
        assert Q.DiffId(more[i - |q|], more[k - |q|]);
      }
    }
  }

  lemma MergedQueueOk(t: Q.Queues, s: Q.Queues, name: string)
    requires QueuesOk(t) && QueuesOk(s) && (name in t || name in s)
    ensures var q := MergedJobs(t, s, name);
      q != [] && Q.DistinctIds(q) && forall j :: j in q ==> j.queue == name
  {
    var q, js := Q.JobsIn(t, name), Q.JobsIn(s, name);
    JobsStayDistinct(q, js);
    if q == [] {
      assert js[0] in js;
      assert js[0] in NewJobs(q, js);
    }
  }

  /** The merged store satisfies the engine's invariant. */
  lemma MergedIsValid(env: Env, s: Store, t: Store)
    requires StoreOk(env.parse, s) && StoreOk(env.parse, t) && HasRoomFor(s, t) && Compatible(env.parse, s, t)
    ensures StoreOk(env.parse, Final(env, s, t).store)
  {
    var os := ExportedObjects(s);
    var clock := FinalStore(env, s, t);
    assert O.ShelfOk(env.parse, OverAll(t.shelf, os, Later(env.clock, 0))) by {
      ExportedObjectsFacts(env.parse, s);
      FittingKeeps(env.parse, s.shelf.objects, os, t.shelf, Later(env.clock, 0));
    }
    ImportOverKeeps(t.table, Sort(L.ById, s.table.links));
    FinalLog(s.log, t.log, clock);
    forall name | name in MergedQueues(t.queues, s.queues)
      ensures var q := MergedJobs(t.queues, s.queues, name);
        q != [] && Q.DistinctIds(q) && forall j :: j in q ==> j.queue == name
    {
      MergedQueueOk(t.queues, s.queues, name);
    }
  }

  lemma FinalTally(env: Env, s: Store, t: Store)
    ensures var o, l, e, q := |ExportedObjects(s)|, |Sort(L.ById, s.table.links)|, |s.log.events|, |ExportedJobs(s)|;
      Final(env, s, t).counts == Counts(o + l + e + q, o, e, l, q)
  {
  }

  lemma FinalCounts(env: Env, s: Store, t: Store)
    requires O.ShelfOk(env.parse, s.shelf)
    ensures Final(env, s, t).counts == SnapshotCounts(s)
  {
    FinalTally(env, s, t);
    ExportedObjectsFacts(env.parse, s);
    ObjectCount(s.shelf.objects, ExportedObjects(s));
    SortPermutes(L.ById, s.table.links);
    assert |multiset(Sort(L.ById, s.table.links))| == |multiset(s.table.links)|;
  }

  /** Importing the snapshot of one store, cut into chunks in any way, into another is accepted exactly when every
      written record is within the line limit, no unique index of the target blocks an object and no link of the
      target has the id of a different link. The target then holds its own queues, each followed by the jobs it did
      not have; its own links, followed by the new ones in id order; its own log, followed by the events it does not
      know, under new sequences; and the objects of the snapshot over its own, one version on. */
  lemma SnapshotMerges(env: Env, encode: Encoder, s: Store, t: Store, chunks: seq<Bytes>)
    requires StoreOk(env.parse, s) && StoreOk(env.parse, t) && HasRoomFor(s, t)
    requires Codec(env, encode, Records(s)) && Flatten(chunks) == Body(encode, s)
    ensures var (r, ok) := Imported(env, t, chunks);
      && (ok <==> Fits(encode, Records(s)) && Compatible(env.parse, s, t))
      && (ok ==> Merged(s, t, r.store) && StoreOk(env.parse, r.store) && r.counts == SnapshotCounts(s))
  {
    BodyLines(env, encode, Records(s));
    ChunkingIsInvisible(HandlerOf(env), Start(t), chunks);
    EncodedLines(env, encode, Start(t), Records(s));
    RecordsAccepted(env, s, t);
    if Compatible(env.parse, s, t) {
      FinalMerges(env, s, t);
      MergedIsValid(env, s, t);
      FinalCounts(env, s, t);
    }
  }
}
