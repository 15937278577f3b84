/**
 * The ring topology both tables build: seat i sits between fork i (its left)
 * and fork (i + 1) mod n (its right), so each fork is shared by two neighbours.
 */
module Ring {

  /** Index of the right fork of seat i, i.e. (i + 1) mod n. */
  function RightOf(n: nat, i: nat): (r: nat)
    requires i < n
    ensures r < n
    ensures i + 1 < n ==> r == i + 1
    ensures i + 1 == n ==> r == 0
    ensures r == i <==> n == 1
  {
    (i + 1) % n
  }

  /** Index of the seat whose right fork is fork j, i.e. (j - 1) mod n. */
  function LeftOf(n: nat, j: nat): (r: nat)
    requires j < n
    ensures r < n
  {
    if j == 0 then n - 1 else j - 1
  }

  /** RightOf and LeftOf undo each other. */
  lemma RightLeftInverse(n: nat, i: nat)
    requires i < n
    ensures LeftOf(n, RightOf(n, i)) == i
    ensures RightOf(n, LeftOf(n, i)) == i
  {
  }

  /**
   * Fork j is used by seat i (as left or right fork) exactly when i is seat j
   * itself or seat (j - 1) mod n: no other seat ever touches it.
   */
  lemma ForkUsers(n: nat, i: nat, j: nat)
    requires i < n && j < n
    ensures (j == i || j == RightOf(n, i)) <==> (i == j || i == LeftOf(n, j))
  {
    RightLeftInverse(n, i);
    RightLeftInverse(n, j);
  }

  /** The position after k in a cycle of length m. */
  function Next(k: nat, m: nat): nat
  {
    if k + 1 >= m then 0 else k + 1
  }

  /**
   * A circular wait among fork choices: the fork seat c[k] wants second is
   * the fork seat c[k+1] (cyclically) wants first. firsts[i] and seconds[i]
   * are the fork indices seat i picks first and second. This compares choices
   * only; the tables' modules tie it to who owns which fork.
   */
  ghost predicate WaitCycle(firsts: seq<nat>, seconds: seq<nat>, c: seq<nat>)
  {
    |firsts| == |seconds| && |c| >= 1 &&
    (forall k :: 0 <= k < |c| ==> c[k] < |firsts|) &&
    (forall k :: 0 <= k < |c| ==> seconds[c[k]] == firsts[c[Next(k, |c|)]])
  }

  /** An open wait chain: the same edges as a wait cycle, without the closing one. */
  ghost predicate WaitChain(firsts: seq<nat>, seconds: seq<nat>, c: seq<nat>)
  {
    |firsts| == |seconds| && |c| >= 1 &&
    (forall k :: 0 <= k < |c| ==> c[k] < |firsts|) &&
    (forall k :: 0 <= k < |c| - 1 ==> seconds[c[k]] == firsts[c[k + 1]])
  }

  /** Along a wait chain of strictly ordered choices the first forks climb. */
  lemma {:induction false} ChainClimbs(firsts: seq<nat>, seconds: seq<nat>, c: seq<nat>, k: nat)
    requires WaitChain(firsts, seconds, c)
    requires forall i :: 0 <= i < |firsts| ==> firsts[i] < seconds[i]
    requires k < |c|
    ensures firsts[c[k]] >= firsts[c[0]] + k
  {
    if k > 0 {
      ChainClimbs(firsts, seconds, c, k - 1);
      assert c[k - 1] < |firsts| && firsts[c[k - 1]] < seconds[c[k - 1]];
      assert seconds[c[k - 1]] == firsts[c[k]];
    }
  }

  /**
   * When every seat takes a strictly lower-numbered fork first, no circular
   * wait exists: the global order on forks breaks every cycle.
   */
  lemma OrderedChoicesHaveNoCycle(firsts: seq<nat>, seconds: seq<nat>, c: seq<nat>)
    requires forall i :: 0 <= i < |firsts| ==> i < |seconds| && firsts[i] < seconds[i]
    ensures !WaitCycle(firsts, seconds, c)
  {
    if WaitCycle(firsts, seconds, c) {
      var m := |c|;
      forall k | 0 <= k < m - 1
        ensures seconds[c[k]] == firsts[c[k + 1]]
      {
        assert Next(k, m) == k + 1;
      }
      // The closing edge, from c[m - 1] back to c[0], then contradicts the climb.
      ChainClimbs(firsts, seconds, c, m - 1);
    }
  }
}
