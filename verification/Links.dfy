/** Graph links and the allocation of their ids. */
module Links {
  import opened Prelude
  import opened Ordering
  import opened Runs

  /** Weights are finite; the not-a-number weight, which equals nothing, is not modelled. */
  datatype Link = Link(
    id: string,
    fromRef: string,
    linkType: string,
    toRef: string,
    weight: Option<real>,
    metadataJson: string,
    createdAt: string)

  datatype Table = Table(links: seq<Link>, next: u64)

  const EMPTY_TABLE := Table([], 0)

  // ------------------------------------------------------------ link ids

  predicate IsDigit(c: char) {
    '0' <= c <= '9'
  }

  /** Decimal digits without leading zeros, as `format!("{n}")` prints them. */
  function Decimal(n: nat): (s: string)
    ensures s != [] && IsDigit(s[0])
  {
    var last := [(n % 10 + '0' as int) as char];
    if n < 10 then last else Decimal(n / 10) + last
  }

  /** The value of a string of digits. */
  function ParseDigits(s: string): Option<nat> {
    if s == [] then Some(0) else
      var high, last := ParseDigits(s[..|s| - 1]), s[|s| - 1];
      if high.Some? && IsDigit(last) then Some(10 * high.value + (last as int - '0' as int)) else None
  }

  /** `str::parse::<u64>`: an optional plus sign, then digits, within range. */
  function ParseU64(s: string): Option<u64> {
    var digits := if s != [] && s[0] == '+' then s[1..] else s;
    if digits == [] then None else
      match ParseDigits(digits)
      case None => None
      case Some(n) => if n <= U64_MAX then Some(n) else None
  }

  const PREFIX := "link-"

  function LinkId(n: u64): string {
    PREFIX + Decimal(n)
  }

  /** The number in an id of the form `link-n`. */
  function LinkNumber(id: string): Option<u64> {
    if PREFIX <= id then ParseU64(id[|PREFIX|..]) else None
  }

  lemma {:induction false} DecimalRoundTrip(n: nat)
    ensures ParseDigits(Decimal(n)) == Some(n)
  {
    var s := Decimal(n);
    if n < 10 {
      assert s[..0] == [];
    } else {
      DecimalRoundTrip(n / 10);
      assert s[..|s| - 1] == Decimal(n / 10);
    }
  }

  /** Every generated id reads back as its number, so distinct numbers give distinct ids. */
  lemma LinkIdRoundTrip(n: u64)
    ensures LinkNumber(LinkId(n)) == Some(n)
  {
    DecimalRoundTrip(n);
    assert LinkId(n)[|PREFIX|..] == Decimal(n);
  }

  // ---------------------------------------------------------- operations

  predicate Live(t: Table, id: string) {
    exists i :: 0 <= i < |t.links| && t.links[i].id == id
  }

  /** Index of the first link called `id`, or the length when there is none. */
  function IndexOf(links: seq<Link>, id: string): (i: nat)
    ensures i <= |links|
    ensures i < |links| ==> links[i].id == id
    ensures forall j :: 0 <= j < i ==> links[j].id != id
  {
    if links == [] || links[0].id == id then 0 else 1 + IndexOf(links[1..], id)
  }

  function Get(t: Table, id: string): Option<Link> {
    var i := IndexOf(t.links, id);
    if i < |t.links| then Some(t.links[i]) else None
  }

  function Create(t: Table, link: Link, now: string): (Table, Link) {
    var n := Increment(t.next);
    var made := link.(id := LinkId(n), createdAt := if link.createdAt == "" then now else link.createdAt);
    (Table(t.links + [made], n), made)
  }

  function Import(t: Table, link: Link): (Table, Result<Link, Error>) {
    if link.id == "" then (t, Err(InvalidInput)) else
      match Get(t, link.id)
      case Some(existing) => (t, if existing == link then Ok(link) else Err(Conflict))
      case None =>
        var n := LinkNumber(link.id);
        (Table(t.links + [link], if n.Some? && n.value > t.next then n.value else t.next), Ok(link))
  }

  function Delete(t: Table, id: string): (Table, bool) {
    var kept := Filter((l: Link) => l.id != id, t.links);
    (t.(links := kept), |kept| < |t.links|)
  }

  predicate ById(a: Link, b: Link) {
    StrLeq(a.id, b.id)
  }

  function List(t: Table, offset: nat, limit: nat): seq<Link> {
    Page(Sort(ById, t.links), offset, limit)
  }

  // ------------------------------------------------------------ invariant

  predicate DiffId(a: Link, b: Link) {
    a.id != b.id
  }

  /** Ids are distinct and not empty, and the counter bounds every live id of the form `link-n`. */
  ghost predicate LinksOk(t: Table) {
    && Pairwise(DiffId, t.links)
    && (forall l :: l in t.links ==> l.id != "")
    && (forall l :: l in t.links && LinkNumber(l.id).Some? ==> LinkNumber(l.id).value <= t.next)
  }

  /** The counter can move on: it is below its maximum, or no live id has a number, unless that is zero and not
      written `link-0`, to which the counter wraps. */
  ghost predicate HasRoom(t: Table) {
    t.next < U64_MAX || forall l :: l in t.links ==> Unnumbered(l)
  }

  predicate Unnumbered(l: Link) {
    LinkNumber(l.id).Some? ==> LinkNumber(l.id).value == 0 && l.id != LinkId(0)
  }

  /** While the counter bounds the live numbers, a created id is free exactly when the counter is below its
      maximum or `link-0`, to which it then wraps, is not taken. */
  lemma CreateIsFresh(t: Table, link: Link, now: string)
    requires LinksOk(t)
    ensures !Live(t, Create(t, link, now).1.id) <==> t.next < U64_MAX || !Live(t, LinkId(0))
  {
    if t.next < U64_MAX {
      LinkIdRoundTrip(t.next + 1);
    }
  }

  lemma CreatedLast(t: Table, made: Link)
    requires LinksOk(t) && made.id != "" && !Live(t, made.id)
    ensures Pairwise(DiffId, t.links + [made]) && forall l :: l in t.links + [made] ==> l.id != ""
  {
    var links := t.links + [made];
    forall i, j | 0 <= i < j < |links| ensures DiffId(links[i], links[j]) {
      assert j < |t.links| ==> DiffId(t.links[i], t.links[j]);
    }
  }

  lemma CreateBelowMaximum(t: Table, link: Link, now: string)
    requires LinksOk(t) && t.next < U64_MAX
    ensures LinksOk(Create(t, link, now).0)
  {
    CreateIsFresh(t, link, now);
    LinkIdRoundTrip(t.next + 1);
    CreatedLast(t, Create(t, link, now).1);
  }

  lemma CreateAtMaximum(t: Table, link: Link, now: string)
    requires LinksOk(t) && t.next == U64_MAX
    ensures LinksOk(Create(t, link, now).0) <==> HasRoom(t)
  {
    var (t', made) := Create(t, link, now);
    LinkIdRoundTrip(0);
    if HasRoom(t) {
      forall i | 0 <= i < |t.links| ensures t.links[i].id != made.id {
        assert t.links[i] in t.links && Unnumbered(t.links[i]);
      }
      CreatedLast(t, made);
    } else {
      var l :| l in t.links && !Unnumbered(l);
      var i :| 0 <= i < |t.links| && t.links[i] == l;
      assert t'.links[i] == l && t'.links[|t.links|] == made && l in t'.links;
      assert !DiffId(t'.links[i], t'.links[|t.links|]) || !LinksOk(t');
    }
  }

  /** The invariant survives a creation exactly when the counter can move on. */
  lemma CreateKeeps(t: Table, link: Link, now: string)
    requires LinksOk(t)
    ensures LinksOk(Create(t, link, now).0) <==> HasRoom(t)
  {
    if t.next < U64_MAX {
      CreateBelowMaximum(t, link, now);
    } else {
      CreateAtMaximum(t, link, now);
    }
  }

  lemma ImportKeeps(t: Table, link: Link)
    requires LinksOk(t)
    ensures LinksOk(Import(t, link).0)
  {
    var t' := Import(t, link).0;
    if t' != t {
      forall i, j | 0 <= i < j < |t'.links| ensures DiffId(t'.links[i], t'.links[j]) {
        assert j < |t.links| ==> DiffId(t.links[i], t.links[j]);
      }
    }
  }

  lemma DeleteKeeps(t: Table, id: string)
    requires LinksOk(t)
    ensures LinksOk(Delete(t, id).0) && !Live(Delete(t, id).0, id)
  {
    FilterPairwise((l: Link) => l.id != id, DiffId, t.links);
    var kept := Delete(t, id).0.links;
    forall i | 0 <= i < |kept| ensures kept[i].id != id {
      assert kept[i] in kept;
    }
  }

  // ------------------------------------------------------------------ runs

  datatype Op =
    | CreateOp(link: Link, now: string)
    | ImportOp(link: Link)
    | DeleteOp(id: string)

  function Step(t: Table, op: Op): Table {
    match op
    case CreateOp(link, now) => Create(t, link, now).0
    case ImportOp(link) => Import(t, link).0
    case DeleteOp(id) => Delete(t, id).0
  }

  function At(ops: seq<Op>, k: nat): Table
    requires k <= |ops|
  {
    if k == 0 then EMPTY_TABLE else Step(At(ops, k - 1), ops[k - 1])
  }

  lemma StepKeeps(t: Table, op: Op)
    requires LinksOk(t)
    ensures LinksOk(Step(t, op)) <==> (op.CreateOp? ==> HasRoom(t))
  {
    match op
    case CreateOp(link, now) => CreateKeeps(t, link, now);
    case ImportOp(link) => ImportKeeps(t, link);
    case DeleteOp(id) => DeleteKeeps(t, id);
  }

  /** The tables of the run, from the empty one on. */
  function States(ops: seq<Op>): (states: seq<Table>)
    ensures |states| == |ops| + 1 && forall k :: 0 <= k <= |ops| ==> states[k] == At(ops, k)
  {
    seq(|ops| + 1, k requires 0 <= k <= |ops| => At(ops, k))
  }

  ghost predicate OkAt(ops: seq<Op>, k: nat)
    requires k <= |ops|
  {
    LinksOk(At(ops, k))
  }

  ghost predicate RoomAt(ops: seq<Op>, k: nat)
    requires k < |ops|
  {
    ops[k].CreateOp? ==> HasRoom(At(ops, k))
  }

  lemma NextOk(ops: seq<Op>, k: nat)
    requires k < |ops| && OkAt(ops, k)
    ensures OkAt(ops, k + 1) <==> RoomAt(ops, k)
  {
    StepKeeps(At(ops, k), ops[k]);
    assert At(ops, k + 1) == Step(At(ops, k), ops[k]);
  }

  lemma OkUpTo(ops: seq<Op>, k: nat)
    requires k <= |ops| && forall m :: 0 <= m < |ops| ==> RoomAt(ops, m)
    ensures OkAt(ops, k)
  {
    var ok, states := (t: Table) => LinksOk(t), States(ops);
    forall m | 0 <= m < |ops| ensures Carried(ok, states, m) {
      assert RoomAt(ops, m);
      if OkAt(ops, m) {
        NextOk(ops, m);
      }
    }
    Invariant(ok, states, k);
  }

  /** Throughout an interleaving of creations, imports and deletions ids are distinct and not empty and the
      counter bounds every live `link-n`, exactly when the counter can move on at every creation. */
  lemma IdsStayDistinct(ops: seq<Op>)
    ensures (forall k :: 0 <= k <= |ops| ==> OkAt(ops, k)) <==> (forall k :: 0 <= k < |ops| ==> RoomAt(ops, k))
  {
    if forall k :: 0 <= k <= |ops| ==> OkAt(ops, k) {
      forall k | 0 <= k < |ops| ensures RoomAt(ops, k) {
        assert OkAt(ops, k) && OkAt(ops, k + 1);
        NextOk(ops, k);
      }
    }
    if forall k :: 0 <= k < |ops| ==> RoomAt(ops, k) {
      forall k | 0 <= k <= |ops| ensures OkAt(ops, k) {
        OkUpTo(ops, k);
      }
    }
  }

  // --------------------------------- distinct ids, past the maximum as well

  ghost predicate DistinctAt(ops: seq<Op>, k: nat)
    requires k <= |ops|
  {
    Pairwise(DiffId, At(ops, k).links)
  }

  /** The id that the next creation gives is not in the table. */
  ghost predicate NextIsFree(t: Table) {
    !Live(t, LinkId(Increment(t.next)))
  }

  ghost predicate FreeAt(ops: seq<Op>, k: nat)
    requires k < |ops|
  {
    ops[k].CreateOp? ==> NextIsFree(At(ops, k))
  }

  lemma AppendDistinct(links: seq<Link>, last: Link)
    requires Pairwise(DiffId, links)
    ensures Pairwise(DiffId, links + [last]) <==> forall i :: 0 <= i < |links| ==> links[i].id != last.id
  {
    var longer := links + [last];
    if Pairwise(DiffId, longer) {
      forall i | 0 <= i < |links| ensures links[i].id != last.id {
        assert DiffId(longer[i], longer[|links|]);
      }
    }
  }

  lemma StepDistinct(t: Table, op: Op)
    requires Pairwise(DiffId, t.links)
    ensures Pairwise(DiffId, Step(t, op).links) <==> (op.CreateOp? ==> NextIsFree(t))
  {
    match op
    case CreateOp(link, now) => AppendDistinct(t.links, Create(t, link, now).1);
    case ImportOp(link) => AppendDistinct(t.links, link);
    case DeleteOp(id) => FilterPairwise((l: Link) => l.id != id, DiffId, t.links);
  }

  lemma NextDistinct(ops: seq<Op>, k: nat)
    requires k < |ops| && DistinctAt(ops, k)
    ensures DistinctAt(ops, k + 1) <==> FreeAt(ops, k)
  {
    StepDistinct(At(ops, k), ops[k]);
    assert At(ops, k + 1) == Step(At(ops, k), ops[k]);
  }

  /** In any run, wrapped counters included, ids stay distinct exactly when no creation comes to a number whose
      id is live. Imports and deletions never make two links share an id. */
  lemma DistinctIffNextIsFree(ops: seq<Op>)
    ensures (forall k :: 0 <= k <= |ops| ==> DistinctAt(ops, k)) <==> (forall k :: 0 <= k < |ops| ==> FreeAt(ops, k))
  {
    if forall k :: 0 <= k <= |ops| ==> DistinctAt(ops, k) {
      forall k | 0 <= k < |ops| ensures FreeAt(ops, k) {
        assert DistinctAt(ops, k) && DistinctAt(ops, k + 1);
        NextDistinct(ops, k);
      }
    }
    if forall k :: 0 <= k < |ops| ==> FreeAt(ops, k) {
      forall k | 0 <= k <= |ops| ensures DistinctAt(ops, k) {
        DistinctUpTo(ops, k);
      }
    }
  }

  lemma DistinctUpTo(ops: seq<Op>, k: nat)
    requires k <= |ops| && forall m :: 0 <= m < |ops| ==> FreeAt(ops, m)
    ensures DistinctAt(ops, k)
  {
    var distinct, states := (t: Table) => Pairwise(DiffId, t.links), States(ops);
    forall m | 0 <= m < |ops| ensures Carried(distinct, states, m) {
      assert FreeAt(ops, m);
      if DistinctAt(ops, m) {
        NextDistinct(ops, m);
      }
    }
    Invariant(distinct, states, k);
  }

  // ------------------------------------------------------- ids over a run

  predicate NotExhausted(ops: seq<Op>, k: nat)
    requires k < |ops|
  {
    ops[k].CreateOp? ==> At(ops, k).next < U64_MAX
  }

  /** No link is created while the counter stands at its maximum. */
  ghost predicate CounterNeverExhausted(ops: seq<Op>) {
    forall k :: 0 <= k < |ops| ==> NotExhausted(ops, k)
  }

  predicate NextAtMost(a: Table, b: Table) {
    a.next <= b.next
  }

  lemma CounterNeverFalls(ops: seq<Op>, i: nat, k: nat)
    requires CounterNeverExhausted(ops) && i <= k <= |ops|
    ensures NextAtMost(At(ops, i), At(ops, k))
  {
    forall m | 0 <= m < |ops| ensures Linked(NextAtMost, States(ops), m) {
      assert NotExhausted(ops, m);
      NextCounter(ops, m);
    }
    Monotone(NextAtMost, States(ops), i, k);
  }

  lemma NextCounter(ops: seq<Op>, k: nat)
    requires k < |ops| && NotExhausted(ops, k)
    ensures At(ops, k).next <= At(ops, k + 1).next
  {
    StepCounter(At(ops, k), ops[k]);
  }

  lemma StepCounter(t: Table, op: Op)
    requires op.CreateOp? ==> t.next < U64_MAX
    ensures t.next <= Step(t, op).next
  {
  }

  lemma CreatedNumber(t: Table, link: Link, now: string)
    requires t.next < U64_MAX
    ensures LinkNumber(Create(t, link, now).1.id) == Some(t.next + 1)
  {
    LinkIdRoundTrip(t.next + 1);
  }

  lemma LiveNumberIsBounded(ops: seq<Op>, i: nat, link: Link)
    requires CounterNeverExhausted(ops) && i <= |ops| && link in At(ops, i).links
    ensures LinkNumber(link.id).Some? ==> LinkNumber(link.id).value <= At(ops, i).next
  {
    forall m | 0 <= m < |ops| ensures RoomAt(ops, m) {
      assert NotExhausted(ops, m);
    }
    OkUpTo(ops, i);
  }

  /** A created id was never in the table before, not even as the id of a link deleted since. */
  lemma CreatedIdIsNew(ops: seq<Op>, i: nat, k: nat, link: Link)
    requires CounterNeverExhausted(ops) && i <= k < |ops| && ops[k].CreateOp?
    requires link in At(ops, i).links
    ensures Create(At(ops, k), ops[k].link, ops[k].now).1.id != link.id
  {
    LiveNumberIsBounded(ops, i, link);
    CounterNeverFalls(ops, i, k);
    assert NotExhausted(ops, k);
    CreatedNumber(At(ops, k), ops[k].link, ops[k].now);
  }

  lemma {:induction false} AfterImports(ops: seq<Op>, a: Link, b: Link, m: u64, n: u64)
    requires |ops| >= 2 && ops[0] == ImportOp(a) && ops[1] == ImportOp(b)
    requires m < n && a.id == LinkId(m) && b.id == LinkId(n)
    ensures a.id != b.id && At(ops, 2) == Table([a, b], n)
  {
    LinkIdRoundTrip(m);
    LinkIdRoundTrip(n);
    assert At(ops, 0) == EMPTY_TABLE;
    assert At(ops, 1) == Table([a], m);
    assert IndexOf([a], b.id) == 1;
  }

  /** Without that condition ids collide: importing `link-0` and the largest number makes the next creation
      wrap round to `link-0`. */
  lemma ExhaustedCounterCollides(link: Link, now: string)
    ensures var ops := [ImportOp(link.(id := LinkId(0))), ImportOp(link.(id := LinkId(U64_MAX))), CreateOp(link, now)];
      !DistinctAt(ops, 3)
  {
    var a, b := link.(id := LinkId(0)), link.(id := LinkId(U64_MAX));
    var ops := [ImportOp(a), ImportOp(b), CreateOp(link, now)];
    AfterImports(ops, a, b, 0, U64_MAX);
    var c := Create(At(ops, 2), link, now).1;
    assert At(ops, 3).links == [a, b, c];
    assert !DiffId([a, b, c][0], [a, b, c][2]);
  }

  /** Nor is it enough that `link-0` is free: with `link-1` live the first creation past the maximum gets the
      free `link-0`, and the second, at a counter far below its maximum, collides with `link-1`. */
  lemma WrapThenCollide(link: Link, now: string)
    ensures var ops := [ImportOp(link.(id := LinkId(1))), ImportOp(link.(id := LinkId(U64_MAX))),
                        CreateOp(link, now), CreateOp(link, now)];
      && !Live(At(ops, 2), LinkId(0)) && DistinctAt(ops, 3)
      && At(ops, 3).next == 0 && !DistinctAt(ops, 4)
  {
    var a, b := link.(id := LinkId(1)), link.(id := LinkId(U64_MAX));
    var ops := [ImportOp(a), ImportOp(b), CreateOp(link, now), CreateOp(link, now)];
    AfterImports(ops, a, b, 1, U64_MAX);
    LinkIdRoundTrip(0);
    LinkIdRoundTrip(1);
    LinkIdRoundTrip(U64_MAX);
    Collides(a, b, link, now);
    assert At(ops, 3) == Create(At(ops, 2), link, now).0;
    assert At(ops, 4) == Create(At(ops, 3), link, now).0;
  }

  lemma Collides(a: Link, b: Link, link: Link, now: string)
    requires a.id == LinkId(1) && a.id != LinkId(0) && b.id != LinkId(0) && a.id != b.id
    ensures var t := Create(Table([a, b], U64_MAX), link, now).0;
      t.next == 0 && Pairwise(DiffId, t.links) && !Pairwise(DiffId, Create(t, link, now).0.links)
  {
    var t := Create(Table([a, b], U64_MAX), link, now).0;
    var links := Create(t, link, now).0.links;
    assert !DiffId(links[0], links[3]);
  }
}
