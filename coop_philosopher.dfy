/**
 * A philosopher of the cooperative simulation
 * (DiningPhilosophersCoroutine/Philosopher.cs). Its life cycle runs as an
 * async task that suspends at its waits and delays; each method below is one
 * stretch of RunLifeCycle between two suspension points, taken as one atomic
 * step (the program's pool continuations can interleave inside it). The
 * forks are the table's semaphores, shared with the neighbours: an array of
 * owners, Some(id) while philosopher id holds the fork.
 */
module CoopPhilosopher {
  import opened Common

  /**
   * Philosophers with an even id reach for their left fork first
   * (Philosopher.cs:31). C# truncates `%` and Dafny does not, but the two
   * agree on whether the remainder is zero.
   */
  predicate PicksLeftFirst(id: int)
  {
    id % 2 == 0
  }

  /** The fork requested first (Philosopher.cs:41). */
  function FirstChoice(pickLeftFirst: bool, left: nat, right: nat): nat
  {
    if pickLeftFirst then left else right
  }

  /** The fork requested second (Philosopher.cs:42): always the other one of the pair. */
  function SecondChoice(pickLeftFirst: bool, left: nat, right: nat): (s: nat)
    ensures {FirstChoice(pickLeftFirst, left, right), s} == {left, right}
    ensures left != right ==> s != FirstChoice(pickLeftFirst, left, right)
  {
    if pickLeftFirst then right else left
  }

  /** Where RunLifeCycle (Philosopher.cs:33-70) is. */
  datatype Stage =
    | Thinking                 // top of the loop
    | AwaitFirst               // waiting on the first fork
    | AwaitSecond              // first fork taken, waiting on the second
    | Eating                   // both forks taken and the meal stamped, in the eating delay
    | Sleeping                 // forks released, in the sleeping delay
    | Finished(heldFirst: bool, heldSecond: bool)  // the method returned; these forks were never released

  predicate HoldsFirst(st: Stage)
  {
    st.AwaitSecond? || st.Eating? || (st.Finished? && st.heldFirst)
  }

  predicate HoldsSecond(st: Stage)
  {
    st.Eating? || (st.Finished? && st.heldSecond)
  }

  /** The fork indices a philosopher in stage st holds, with first fork f and second fork s. */
  function HeldBy(st: Stage, f: nat, s: nat): set<nat>
  {
    (if HoldsFirst(st) then {f} else {}) + (if HoldsSecond(st) then {s} else {})
  }

  /** The fork operations of the cycle under way in stage st. */
  function InFlight(st: Stage, f: nat, s: nat): seq<Action>
  {
    (if HoldsFirst(st) then [Take(f)] else []) + (if HoldsSecond(st) then [Take(s)] else [])
  }

  /** One completed cycle: release in the reverse order of acquisition (Philosopher.cs:57-58). */
  function Cycle(f: nat, s: nat): seq<Action>
  {
    [Take(f), Take(s), Put(s), Put(f)]
  }

  /** k completed cycles. */
  function Cycles(k: nat, f: nat, s: nat): seq<Action>
  {
    Repeat(k, Cycle(f, s))
  }

  /**
   * The philosopher with id `id`, first fork f and second fork s, is in stage
   * st: it holds exactly the forks the stage says, and its fork operations
   * are `meals` completed cycles followed by the one under way.
   */
  ghost predicate PhilOk(id: int, f: nat, s: nat, own: seq<Option<int>>, st: Stage, meals: int, tr: seq<Action>)
  {
    f < |own| && s < |own| && meals >= 0 &&
    (st.Finished? && st.heldSecond ==> st.heldFirst) &&
    (forall x :: 0 <= x < |own| ==> (own[x] == Some(id) <==> x in HeldBy(st, f, s))) &&
    tr == Cycles(meals, f, s) + InFlight(st, f, s)
  }

  /** Fork changes that only take free forks for `id` or put back forks of `id`. */
  ghost predicate OnlyOwnChanges(own: seq<Option<int>>, own': seq<Option<int>>, id: int)
  {
    |own'| == |own| &&
    forall x :: 0 <= x < |own| && own'[x] != own[x] ==>
      (own[x] == None || own[x] == Some(id)) && (own'[x] == None || own'[x] == Some(id))
  }

  /** What one philosopher does to the forks leaves every other philosopher consistent. */
  lemma OtherUnaffected(id: int, other: int, f: nat, s: nat, own: seq<Option<int>>, own': seq<Option<int>>,
                        st: Stage, meals: int, tr: seq<Action>)
    requires PhilOk(other, f, s, own, st, meals, tr) && other != id
    requires OnlyOwnChanges(own, own', id)
    ensures PhilOk(other, f, s, own', st, meals, tr)
  {
  }

  /** A philosopher that owns no fork and has not started holds nothing and has done nothing. */
  lemma FreshPhilOk(id: int, f: nat, s: nat, own: seq<Option<int>>)
    requires f < |own| && s < |own|
    requires forall x :: 0 <= x < |own| ==> own[x] != Some(id)
    ensures PhilOk(id, f, s, own, Thinking, 0, [])
  {
  }

  class Philosopher {
    const id: int
    const forks: array<Option<int>>
    const left: nat
    const right: nat
    const pickLeftFirst: bool
    var mealsEaten: int
    var lastMealTime: int
    var stage: Stage
    /** The fork operations this philosopher has performed, in order. */
    ghost var trace: seq<Action>

    function First(): nat
    {
      FirstChoice(pickLeftFirst, left, right)
    }

    function Second(): nat
    {
      SecondChoice(pickLeftFirst, left, right)
    }

    ghost predicate Valid()
      reads this, forks
    {
      left < forks.Length && right < forks.Length &&
      pickLeftFirst == PicksLeftFirst(id) &&
      PhilOk(id, First(), Second(), forks[..], stage, mealsEaten, trace)
    }

    /** Philosopher.cs:17-32: no meal yet, the table's start time as the last meal, and the parity rule fixed. */
    constructor (id: int, forks: array<Option<int>>, left: nat, right: nat, startTime: int)
      requires left < forks.Length && right < forks.Length
      requires forall x :: 0 <= x < forks.Length ==> forks[x] != Some(id)
      ensures Valid()
      ensures this.id == id && this.forks == forks && this.left == left && this.right == right
      ensures mealsEaten == 0 && lastMealTime == startTime
      ensures pickLeftFirst == PicksLeftFirst(id)
      ensures stage == Thinking && trace == []
    {
      this.id := id;
      this.forks := forks;
      this.left := left;
      this.right := right;
      lastMealTime := startTime;
      mealsEaten := 0;
      pickLeftFirst := id % 2 == 0;
      stage := Thinking;
      trace := [];
      new;
      FreshPhilOk(id, First(), Second(), forks[..]);
    }

    /** Philosopher.cs:37-39: the head start and the loop test; a cancelled token ends the task. */
    method Begin(cancelled: bool)
      requires Valid() && stage == Thinking
      modifies this`stage
      ensures Valid()
      ensures stage == if cancelled then Finished(false, false) else AwaitFirst
    {
      stage := if cancelled then Finished(false, false) else AwaitFirst;
    }

    /** Philosopher.cs:44: the wait on the first fork, which only cancellation can interrupt. */
    method AcquireFirst(cancelled: bool)
      requires Valid() && stage == AwaitFirst
      modifies this`stage, this`trace, forks
      ensures Valid() && OnlyOwnChanges(old(forks[..]), forks[..], id)
      ensures cancelled ==>
        stage == Finished(false, false) && forks[..] == old(forks[..]) && trace == old(trace)
      ensures !cancelled && old(forks[First()]) == None ==>
        stage == AwaitSecond && forks[..] == old(forks[..])[First() := Some(id)] && trace == old(trace) + [Take(First())]
      ensures !cancelled && old(forks[First()]) != None ==>
        stage == AwaitFirst && forks[..] == old(forks[..]) && trace == old(trace)
    {
      if cancelled {
        stage := Finished(false, false);
      } else if forks[First()] == None {
        forks[First()] := Some(id);
        stage := AwaitSecond;
        trace := trace + [Take(First())];
        assert InFlight(AwaitSecond, First(), Second()) == [Take(First())];
      }
    }

    /**
     * Philosopher.cs:47-50: the wait on the second fork; once it is taken, the
     * meal is stamped with the current time. A cancelled wait returns still
     * holding the first fork.
     */
    method AcquireSecond(cancelled: bool, now: int)
      requires Valid() && stage == AwaitSecond
      modifies this`stage, this`trace, this`lastMealTime, forks
      ensures Valid() && OnlyOwnChanges(old(forks[..]), forks[..], id)
      ensures cancelled ==>
        stage == Finished(true, false) && forks[..] == old(forks[..]) && trace == old(trace) &&
        lastMealTime == old(lastMealTime)
      ensures !cancelled && old(forks[Second()]) == None ==>
        stage == Eating && forks[..] == old(forks[..])[Second() := Some(id)] &&
        trace == old(trace) + [Take(Second())] && lastMealTime == now
      ensures !cancelled && old(forks[Second()]) != None ==>
        stage == AwaitSecond && forks[..] == old(forks[..]) && trace == old(trace) &&
        lastMealTime == old(lastMealTime)
    {
      if cancelled {
        stage := Finished(true, false);
        assert InFlight(Finished(true, false), First(), Second()) == InFlight(AwaitSecond, First(), Second());
      } else if forks[Second()] == None {
        forks[Second()] := Some(id);
        lastMealTime := now;
        stage := Eating;
        trace := trace + [Take(Second())];
        assert InFlight(Eating, First(), Second()) == [Take(First()), Take(Second())];
        assert InFlight(AwaitSecond, First(), Second()) == [Take(First())];
      }
    }

    /**
     * Philosopher.cs:53-58: the eating delay; then the meal is counted and the
     * forks are released, second fork first. A cancelled delay returns holding both.
     */
    method FinishEating(cancelled: bool)
      requires Valid() && stage == Eating
      modifies this`stage, this`trace, this`mealsEaten, forks
      ensures Valid() && OnlyOwnChanges(old(forks[..]), forks[..], id)
      ensures cancelled ==>
        stage == Finished(true, true) && forks[..] == old(forks[..]) && trace == old(trace) &&
        mealsEaten == old(mealsEaten)
      ensures !cancelled ==>
        stage == Sleeping && forks[..] == old(forks[..])[Second() := None][First() := None] &&
        trace == old(trace) + [Put(Second()), Put(First())] && mealsEaten == old(mealsEaten) + 1
    {
      if cancelled {
        stage := Finished(true, true);
        assert InFlight(Finished(true, true), First(), Second()) == InFlight(Eating, First(), Second());
      } else {
        mealsEaten := mealsEaten + 1;
        forks[Second()] := None;
        forks[First()] := None;
        stage := Sleeping;
        trace := trace + [Put(Second()), Put(First())];
        assert InFlight(Eating, First(), Second()) == [Take(First()), Take(Second())];
        assert trace == Cycles(mealsEaten - 1, First(), Second()) + Cycle(First(), Second());
      }
    }

    /** Philosopher.cs:62-63: the sleeping delay; the loop then starts over. */
    method FinishSleeping(cancelled: bool)
      requires Valid() && stage == Sleeping
      modifies this`stage
      ensures Valid()
      ensures stage == if cancelled then Finished(false, false) else Thinking
    {
      stage := if cancelled then Finished(false, false) else Thinking;
    }
  }

  /**
   * Release symmetry: a philosopher that holds no fork, in particular one
   * whose task ended by cancellation outside a wait for its second fork or
   * its meal, owns no fork and has put back every fork exactly as often as
   * it took it.
   */
  lemma IdleIsBalanced(p: Philosopher)
    requires p.Valid() && !HoldsFirst(p.stage)
    ensures forall x :: 0 <= x < p.forks.Length ==> p.forks[x] != Some(p.id)
    ensures Balanced(p.trace)
  {
    IdleTraceBalanced(p.mealsEaten, p.First(), p.Second(), p.stage, p.trace);
  }

  /** Completed cycles followed by nothing in flight are balanced. */
  lemma IdleTraceBalanced(k: nat, f: nat, s: nat, st: Stage, tr: seq<Action>)
    requires tr == Cycles(k, f, s) + InFlight(st, f, s) && !HoldsFirst(st) && !HoldsSecond(st)
    ensures Balanced(tr)
  {
    RepeatTwoFork(k, Cycle(f, s), f, s);
    assert InFlight(st, f, s) == [];
    assert tr == Cycles(k, f, s);
  }

  /** A task cancelled while waiting or eating ends still owning the forks it held (Philosopher.cs:66-69). */
  lemma CancelledKeepsForks(p: Philosopher)
    requires p.Valid() && p.stage.Finished? && p.stage.heldFirst
    ensures p.forks[p.First()] == Some(p.id)
    ensures p.stage.heldSecond ==> p.forks[p.Second()] == Some(p.id)
    ensures !Balanced(p.trace)
  {
    var f, s := p.First(), p.Second();
    assert f in HeldBy(p.stage, f, s);
    RepeatTwoFork(p.mealsEaten, Cycle(f, s), f, s);
    if p.stage.heldSecond {
      assert multiset([Take(f), Take(s)])[Take(f)] >= 1;
      OpenTakeUnbalanced(Cycles(p.mealsEaten, f, s), [Take(f), Take(s)], f);
    } else {
      OpenTakeUnbalanced(Cycles(p.mealsEaten, f, s), [Take(f)], f);
    }
  }
}
