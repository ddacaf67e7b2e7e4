/** Induction over the states of a run, for any kind of state. */
module Runs {

  /** What holds before step `m` of the run holds after it. */
  predicate Carried<S>(p: S -> bool, states: seq<S>, m: nat)
    requires m < |states| - 1
  {
    p(states[m]) ==> p(states[m + 1])
  }

  lemma {:induction false} Invariant<S>(p: S -> bool, states: seq<S>, k: nat)
    requires k < |states| && p(states[0]) && forall m :: 0 <= m < |states| - 1 ==> Carried(p, states, m)
    ensures p(states[k])
  {
    if k > 0 {
      Invariant(p, states, k - 1);
      assert Carried(p, states, k - 1);
    }
  }

  predicate Linked<S>(rel: (S, S) -> bool, states: seq<S>, m: nat)
    requires m < |states| - 1
  {
    rel(states[m], states[m + 1])
  }

  ghost predicate Preorder<S(!new)>(rel: (S, S) -> bool) {
    (forall x :: rel(x, x)) && forall x, y, z :: rel(x, y) && rel(y, z) ==> rel(x, z)
  }

  /** A preorder that relates each state to the next relates each state to every later one. */
  lemma {:induction false} Monotone<S(!new)>(rel: (S, S) -> bool, states: seq<S>, i: nat, k: nat)
    requires Preorder(rel) && i <= k < |states| && forall m :: 0 <= m < |states| - 1 ==> Linked(rel, states, m)
    ensures rel(states[i], states[k])
    decreases k
  {
    if i < k {
      Monotone(rel, states, i, k - 1);
      assert Linked(rel, states, k - 1);
    }
  }

  predicate Kept(p: nat -> bool, m: nat) {
    p(m) ==> p(m + 1)
  }

  /** What holds of zero and is kept by each step below `n` holds up to `n`. */
  lemma {:induction false} UpTo(p: nat -> bool, n: nat, k: nat)
    requires k <= n && p(0) && forall m :: 0 <= m < n ==> Kept(p, m)
    ensures p(k)
  {
    if k > 0 {
      UpTo(p, n, k - 1);
      assert Kept(p, k - 1);
    }
  }
}
