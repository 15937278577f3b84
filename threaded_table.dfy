/**
 * The preemptive simulation (DiningPhilosophers/Table.cs): one table that
 * owns the forks, the philosophers, their last-meal timestamps and meal
 * counts. Each philosopher's loop is modelled step by step, one method per
 * stretch of code between two waits. Each step is taken as atomic: a run
 * of the model is a sequence of steps, while the program's threads can also
 * interleave inside one (between the two releases, for example).
 */
module ThreadedTable {
  import opened Common
  import Ring
  import Liveness

  datatype Fork = Fork(id: nat)

  datatype Philosopher = Philosopher(id: nat, left: Fork, right: Fork)

  /** The philosopher the constructor builds at index i of a ring of n. */
  function Seat(n: nat, i: nat): Philosopher
    requires i < n
  {
    Philosopher(i, Fork(i), Fork(Ring.RightOf(n, i)))
  }

  /** The fork with the lower id is always requested first. */
  function FirstFork(p: Philosopher): Fork
  {
    if p.left.id < p.right.id then p.left else p.right
  }

  /** The other fork of the pair. */
  function SecondFork(p: Philosopher): (s: Fork)
    ensures {FirstFork(p), s} == {p.left, p.right}
    ensures p.left != p.right ==> FirstFork(p).id < s.id
    ensures p.left == p.right ==> s == FirstFork(p)
  {
    if FirstFork(p) == p.left then p.right else p.left
  }

  /**
   * On the ring, every philosopher requests a strictly lower fork first when
   * there are at least two forks; the last philosopher requests fork 0 first.
   * With a single philosopher, both requests name fork 0.
   */
  lemma RingForkOrder(n: nat, i: nat)
    requires i < n
    ensures n >= 2 ==> FirstFork(Seat(n, i)).id < SecondFork(Seat(n, i)).id
    ensures FirstFork(Seat(n, i)).id == if i + 1 == n then 0 else i
    ensures n == 1 ==> FirstFork(Seat(n, i)) == SecondFork(Seat(n, i)) == Fork(0)
  {
  }

  /** Fork index each seat requests first, in seat order. */
  function FirstChoices(n: nat): (r: seq<nat>)
    ensures |r| == n
  {
    seq(n, i requires 0 <= i < n => FirstFork(Seat(n, i)).id)
  }

  /** Fork index each seat requests second, in seat order. */
  function SecondChoices(n: nat): (r: seq<nat>)
    ensures |r| == n
  {
    seq(n, i requires 0 <= i < n => SecondFork(Seat(n, i)).id)
  }

  /** Philosophers 0 and n - 1 both request fork 0 first: the first choices are not all distinct. */
  lemma FirstChoicesCollide(n: nat)
    requires n >= 2
    ensures FirstChoices(n)[0] == FirstChoices(n)[n - 1] == 0
  {
    RingForkOrder(n, 0);
    RingForkOrder(n, n - 1);
  }

  /** With at least two philosophers the lower-id-first rule admits no circular wait. */
  lemma NoWaitCycle(n: nat, c: seq<nat>)
    requires n >= 2
    ensures !Ring.WaitCycle(FirstChoices(n), SecondChoices(n), c)
  {
    forall i | 0 <= i < n
      ensures FirstChoices(n)[i] < SecondChoices(n)[i]
    {
      RingForkOrder(n, i);
    }
    Ring.OrderedChoicesHaveNoCycle(FirstChoices(n), SecondChoices(n), c);
  }

  /** A lone philosopher waits for the fork it already holds (only the timeout ends that wait). */
  lemma LoneSeatWaitsOnItself()
    ensures Ring.WaitCycle(FirstChoices(1), SecondChoices(1), [0])
  {
    RingForkOrder(1, 0);
  }

  /** Where one philosopher's loop (Table.cs:88-142) is. */
  datatype Phase =
    | Thinking                 // top of the loop, before the alive check
    | AwaitFirst               // alive check passed, waiting on the first fork
    | HoldFirst                // first fork taken, before the re-check
    | AwaitSecond              // re-check passed, waiting on the second fork
    | HoldBoth                 // second fork taken, meal not yet recorded
    | Eating                   // meal recorded, in the eating delay
    | Sleeping                 // forks released, in the sleeping delay
    | Returned(tookFirst: bool)                   // the method returned normally
    | Aborted(heldFirst: bool, heldSecond: bool)  // a cancelled wait or delay threw

  /** How a wait on a semaphore ends, as the scheduler decides. */
  datatype Wait = Ready | TimedOut | Cancelled

  predicate HoldsFirst(ph: Phase)
  {
    ph.HoldFirst? || ph.AwaitSecond? || ph.HoldBoth? || ph.Eating? || (ph.Aborted? && ph.heldFirst)
  }

  predicate HoldsSecond(ph: Phase)
  {
    ph.HoldBoth? || ph.Eating? || (ph.Aborted? && ph.heldSecond)
  }

  /** The fork indices a philosopher in phase ph holds, with first fork f and second fork s. */
  function HeldBy(ph: Phase, f: nat, s: nat): set<nat>
  {
    (if HoldsFirst(ph) then {f} else {}) + (if HoldsSecond(ph) then {s} else {})
  }

  /** The fork operations of the loop iteration that is under way in phase ph. */
  function InFlight(ph: Phase, f: nat, s: nat): seq<Action>
  {
    if ph.Returned? then (if ph.tookFirst then [Take(f), Put(f)] else [])
    else (if HoldsFirst(ph) then [Take(f)] else []) + (if HoldsSecond(ph) then [Take(s)] else [])
  }

  /** One completed iteration: both forks taken, then released first fork first (Table.cs:131-132). */
  function Cycle(f: nat, s: nat): seq<Action>
  {
    [Take(f), Take(s), Put(f), Put(s)]
  }

  /** k completed cycles. */
  function Cycles(k: nat, f: nat, s: nat): seq<Action>
  {
    Repeat(k, Cycle(f, s))
  }

  /** Iterations completed so far; the meal is counted before the forks are released. */
  function Completed(ph: Phase, count: int): int
  {
    if ph.Eating? || (ph.Aborted? && ph.heldSecond) then count - 1 else count
  }

  /**
   * Philosopher p's holdings and history agree with its phase: it holds
   * exactly the forks its phase says, and its fork operations are its
   * completed iterations followed by the one under way.
   */
  ghost predicate SeatOk(n: nat, p: nat, own: seq<Option<nat>>, ph: Phase, count: int, tr: seq<Action>)
  {
    p < n && |own| == n &&
    (ph.Aborted? && ph.heldSecond ==> ph.heldFirst) &&
    (forall f :: 0 <= f < n ==> (own[f] == Some(p) <==> f in HeldBy(ph, FirstFork(Seat(n, p)).id, SecondFork(Seat(n, p)).id))) &&
    Completed(ph, count) >= 0 &&
    tr == Cycles(Completed(ph, count), FirstFork(Seat(n, p)).id, SecondFork(Seat(n, p)).id)
          + InFlight(ph, FirstFork(Seat(n, p)).id, SecondFork(Seat(n, p)).id)
  }

  /** Another philosopher taking free forks or putting back its own leaves philosopher q's state intact. */
  lemma OtherSeatUnaffected(n: nat, p: nat, q: nat, own: seq<Option<nat>>, own': seq<Option<nat>>, ph: Phase, count: int, tr: seq<Action>)
    requires SeatOk(n, q, own, ph, count, tr) && q != p && |own'| == n
    requires forall f :: 0 <= f < n && own'[f] != own[f] ==>
      (own[f] == None || own[f] == Some(p)) && (own'[f] == None || own'[f] == Some(p))
    ensures SeatOk(n, q, own', ph, count, tr)
  {
  }

  /** A philosopher that has not started holds nothing and has done nothing. */
  lemma FreshSeatOk(n: nat, p: nat, own: seq<Option<nat>>)
    requires p < n && |own| == n && forall f :: 0 <= f < n ==> own[f] == None
    ensures SeatOk(n, p, own, Thinking, 0, [])
  {
    assert InFlight(Thinking, FirstFork(Seat(n, p)).id, SecondFork(Seat(n, p)).id) == [];
  }

  /** Taking the free second fork (Table.cs:117) keeps philosopher p's state consistent. */
  lemma SecondTakenOk(n: nat, p: nat, own: seq<Option<nat>>, count: int, tr: seq<Action>)
    requires SeatOk(n, p, own, AwaitSecond, count, tr)
    requires own[SecondFork(Seat(n, p)).id] == None
    ensures SeatOk(n, p, own[SecondFork(Seat(n, p)).id := Some(p)], HoldBoth, count, tr + [Take(SecondFork(Seat(n, p)).id)])
  {
    var f, s := FirstFork(Seat(n, p)).id, SecondFork(Seat(n, p)).id;
    assert InFlight(AwaitSecond, f, s) == [Take(f)];
    assert InFlight(HoldBoth, f, s) == [Take(f), Take(s)];
    assert tr + [Take(s)] == Cycles(count, f, s) + [Take(f), Take(s)];
  }

  /** Giving up the first fork after a failed wait or re-check keeps philosopher p's state consistent. */
  lemma FirstPutBackOk(n: nat, p: nat, own: seq<Option<nat>>, ph: Phase, count: int, tr: seq<Action>)
    requires ph == HoldFirst || ph == AwaitSecond
    requires SeatOk(n, p, own, ph, count, tr)
    ensures SeatOk(n, p, own[FirstFork(Seat(n, p)).id := None], Returned(true), count, tr + [Put(FirstFork(Seat(n, p)).id)])
  {
    var f, s := FirstFork(Seat(n, p)).id, SecondFork(Seat(n, p)).id;
    assert InFlight(ph, f, s) == [Take(f)];
    assert tr + [Put(f)] == Cycles(count, f, s) + [Take(f), Put(f)];
  }

  /** Releasing both forks after eating (Table.cs:131-132) completes one iteration. */
  lemma BothReleasedOk(n: nat, p: nat, own: seq<Option<nat>>, count: int, tr: seq<Action>)
    requires SeatOk(n, p, own, Eating, count, tr)
    ensures SeatOk(n, p, own[FirstFork(Seat(n, p)).id := None][SecondFork(Seat(n, p)).id := None], Sleeping, count,
                  tr + [Put(FirstFork(Seat(n, p)).id), Put(SecondFork(Seat(n, p)).id)])
  {
    var f, s := FirstFork(Seat(n, p)).id, SecondFork(Seat(n, p)).id;
    assert InFlight(Eating, f, s) == [Take(f), Take(s)];
    assert tr + [Put(f), Put(s)] == Cycles(count - 1, f, s) + Cycle(f, s);
  }

  datatype TableError = TooFewPhilosophers

  /** The constructor's validation (Table.cs:27): fewer than one philosopher fails before anything is built. */
  method NewTable(nPhilosophers: int, timeToDie: int, timeToEat: int, timeToSleep: int, targetMeals: int)
    returns (r: Result<Table, TableError>)
    ensures r.Err? <==> nPhilosophers < 1
    ensures r.Ok? ==> fresh(r.value) && r.value.Valid() && r.value.n == nPhilosophers
    ensures r.Ok? ==> r.value.Built(timeToDie, timeToEat, timeToSleep, targetMeals)
    ensures r.Ok? ==> fresh(r.value.forks) && fresh(r.value.philosophers) && fresh(r.value.owner)
    ensures r.Ok? ==> fresh(r.value.phase) && fresh(r.value.lastMeal) && fresh(r.value.mealCounts)
  {
    if nPhilosophers < 1 {
      return Err(TooFewPhilosophers);
    }
    var t := new Table(nPhilosophers, timeToDie, timeToEat, timeToSleep, targetMeals);
    return Ok(t);
  }

  class Table {
    const n: nat
    const timeToDie: int
    const timeToEat: int
    const timeToSleep: int
    const targetMeals: int

    const forks: array<Fork>
    const philosophers: array<Philosopher>
    const lastMeal: array<int>     // _lastMealTimestampsMs
    const mealCounts: array<int>   // _mealCounts
    const owner: array<Option<nat>>  // which philosopher holds each fork's semaphore
    const phase: array<Phase>        // where each philosopher's loop is
    var simulationStart: int

    /** The fork operations each philosopher has performed, in order. */
    ghost var trace: seq<seq<Action>>

    function FirstOf(p: nat): nat
      requires p < n
    {
      FirstFork(Seat(n, p)).id
    }

    function SecondOf(p: nat): nat
      requires p < n
    {
      SecondFork(Seat(n, p)).id
    }

    /** Time left before the philosopher whose last meal was at lastEaten starves. */
    function Remaining(now: int, lastEaten: int): int
    {
      timeToDie - (now - lastEaten)
    }

    ghost predicate Valid()
      reads this, forks, philosophers, owner, phase, mealCounts
    {
      n >= 1 &&
      forks.Length == n && philosophers.Length == n && lastMeal.Length == n &&
      mealCounts.Length == n && owner.Length == n && phase.Length == n && |trace| == n &&
      lastMeal != mealCounts &&
      (forall i :: 0 <= i < n ==> forks[i] == Fork(i)) &&
      (forall i :: 0 <= i < n ==> philosophers[i] == Seat(n, i)) &&
      (forall f :: 0 <= f < n && owner[f].Some? ==> owner[f].value < n) &&
      (forall p :: 0 <= p < n ==> SeatOk(n, p, owner[..], phase[p], mealCounts[p], trace[p]))
    }

    /** The state the constructor leaves: ring built, forks free, counters zero, nobody started. */
    ghost predicate Built(timeToDie: int, timeToEat: int, timeToSleep: int, targetMeals: int)
      reads this, forks, philosophers, owner, phase, mealCounts, lastMeal
    {
      this.timeToDie == timeToDie && this.timeToEat == timeToEat &&
      this.timeToSleep == timeToSleep && this.targetMeals == targetMeals &&
      forks.Length == n && philosophers.Length == n && owner.Length == n && phase.Length == n &&
      lastMeal.Length == n && mealCounts.Length == n &&
      (forall i :: 0 <= i < n ==> forks[i] == Fork(i)) &&
      (forall i :: 0 <= i < n ==> philosophers[i] == Philosopher(i, Fork(i), Fork(Ring.RightOf(n, i)))) &&
      (forall i :: 0 <= i < n ==> owner[i] == None && phase[i] == Thinking) &&
      (forall i :: 0 <= i < n ==> lastMeal[i] == 0 && mealCounts[i] == 0)
    }

    /** Table.cs:28-48: fork i gets id i; philosopher i gets fork i on the left and fork (i + 1) mod n on the right. */
    constructor (nPhilosophers: nat, timeToDie: int, timeToEat: int, timeToSleep: int, targetMeals: int)
      requires nPhilosophers >= 1
      ensures Valid() && n == nPhilosophers
      ensures Built(timeToDie, timeToEat, timeToSleep, targetMeals)
      ensures fresh(forks) && fresh(philosophers) && fresh(owner) && fresh(phase)
      ensures fresh(lastMeal) && fresh(mealCounts)
    {
      n := nPhilosophers;
      this.timeToDie := timeToDie;
      this.timeToEat := timeToEat;
      this.timeToSleep := timeToSleep;
      this.targetMeals := targetMeals;

      var fs := new Fork[nPhilosophers];
      var own := new Option<nat>[nPhilosophers];
      for i := 0 to nPhilosophers
        invariant forall k :: 0 <= k < i ==> fs[k] == Fork(k) && own[k] == None
      {
        fs[i] := Fork(i);
        own[i] := None;
      }

      var ps := new Philosopher[nPhilosophers];
      for i := 0 to nPhilosophers
        invariant forall k :: 0 <= k < nPhilosophers ==> fs[k] == Fork(k) && own[k] == None
        invariant forall k :: 0 <= k < i ==> ps[k] == Seat(nPhilosophers, k)
      {
        var left := fs[i];
        var right := fs[Ring.RightOf(nPhilosophers, i)];
        ps[i] := Philosopher(i, left, right);
      }

      forks := fs;
      owner := own;
      philosophers := ps;
      lastMeal := new int[nPhilosophers](_ => 0);
      mealCounts := new int[nPhilosophers](_ => 0);
      phase := new Phase[nPhilosophers](_ => Thinking);
      trace := seq(nPhilosophers, _ => []);
      new;
      FreshTableValid(this);
    }

    /** StartAsync (Table.cs:52-57): every timestamp gets the same baseline before any philosopher runs. */
    method Start(startTime: int, baseline: int)
      requires Valid()
      modifies this`simulationStart, lastMeal
      ensures Valid()
      ensures simulationStart == startTime
      ensures forall i :: 0 <= i < n ==> lastMeal[i] == baseline
    {
      simulationStart := startTime;
      for i := 0 to lastMeal.Length
        invariant simulationStart == startTime
        invariant forall k :: 0 <= k < i ==> lastMeal[k] == baseline
      {
        lastMeal[i] := baseline;
      }
    }

    /**
     * A step of philosopher p that touches only free forks and its own, and no
     * other philosopher's phase, count or trace, keeps every other seat valid.
     */
    twostate lemma OthersKept(p: nat)
      requires old(Valid()) && p < n && |trace| == n
      requires forall q :: 0 <= q < n && q != p ==>
        phase[q] == old(phase[q]) && mealCounts[q] == old(mealCounts[q]) && trace[q] == old(trace[q])
      requires forall f :: 0 <= f < n && owner[f] != old(owner[f]) ==>
        (old(owner[f]) == None || old(owner[f]) == Some(p)) && (owner[f] == None || owner[f] == Some(p))
      ensures forall q :: 0 <= q < n && q != p ==> SeatOk(n, q, owner[..], phase[q], mealCounts[q], trace[q])
    {
      forall q | 0 <= q < n && q != p
        ensures SeatOk(n, q, owner[..], phase[q], mealCounts[q], trace[q])
      {
        assert SeatOk(n, q, old(owner[..]), old(phase[q]), old(mealCounts[q]), old(trace[q]));
        OtherSeatUnaffected(n, p, q, old(owner[..]), owner[..], phase[q], mealCounts[q], trace[q]);
      }
    }

    /** Table.cs:91-101: the loop test and the alive check. */
    method AliveCheck(p: nat, now: int, cancelled: bool)
      requires Valid() && p < n && phase[p] == Thinking
      modifies phase
      ensures Valid()
      ensures phase[..] == old(phase[..])[p :=
        if cancelled || Remaining(now, lastMeal[p]) <= 0 then Returned(false) else AwaitFirst]
    {
      if cancelled {
        phase[p] := Returned(false);
      } else {
        var lastEaten := lastMeal[p];
        var timeSinceLastMeal := now - lastEaten;
        var timeRemaining := timeToDie - timeSinceLastMeal;
        if timeRemaining <= 0 {
          phase[p] := Returned(false);
        } else {
          phase[p] := AwaitFirst;
        }
      }
      OthersKept(p);
    }

    /** Table.cs:104-105: the wait on the first fork. */
    method AcquireFirst(p: nat, w: Wait)
      requires Valid() && p < n && phase[p] == AwaitFirst
      modifies this`trace, owner, phase
      ensures Valid()
      ensures w == Ready && old(owner[FirstOf(p)]) == None ==>
        owner[..] == old(owner[..])[FirstOf(p) := Some(p)] &&
        phase[..] == old(phase[..])[p := HoldFirst] &&
        trace == old(trace)[p := old(trace[p]) + [Take(FirstOf(p))]]
      ensures w == Ready && old(owner[FirstOf(p)]) != None ==>
        owner[..] == old(owner[..]) && phase[..] == old(phase[..]) && trace == old(trace)
      ensures w == TimedOut ==>
        owner[..] == old(owner[..]) && phase[..] == old(phase[..])[p := Returned(false)] && trace == old(trace)
      ensures w == Cancelled ==>
        owner[..] == old(owner[..]) && phase[..] == old(phase[..])[p := Aborted(false, false)] && trace == old(trace)
    {
      var f := FirstFork(philosophers[p]).id;
      match w {
        case Ready =>
          if owner[f] == None {
            owner[f] := Some(p);
            phase[p] := HoldFirst;
            trace := trace[p := trace[p] + [Take(f)]];
          }
        case TimedOut =>
          phase[p] := Returned(false);
        case Cancelled =>
          phase[p] := Aborted(false, false);
      }
      OthersKept(p);
    }

    /** Table.cs:107-115: the remaining time is recomputed; if it is gone, the first fork is released. */
    method Recheck(p: nat, now: int)
      requires Valid() && p < n && phase[p] == HoldFirst
      modifies this`trace, owner, phase
      ensures Valid()
      ensures Remaining(now, lastMeal[p]) <= 0 ==>
        owner[..] == old(owner[..])[FirstOf(p) := None] &&
        phase[..] == old(phase[..])[p := Returned(true)] &&
        trace == old(trace)[p := old(trace[p]) + [Put(FirstOf(p))]]
      ensures Remaining(now, lastMeal[p]) > 0 ==>
        owner[..] == old(owner[..]) && phase[..] == old(phase[..])[p := AwaitSecond] && trace == old(trace)
    {
      var lastEaten := lastMeal[p];
      var timeSinceLastMeal := now - lastEaten;
      var timeRemaining := timeToDie - timeSinceLastMeal;
      if timeRemaining <= 0 {
        var f := FirstFork(philosophers[p]).id;
        FirstPutBackOk(n, p, owner[..], phase[p], mealCounts[p], trace[p]);
        owner[f] := None;
        phase[p] := Returned(true);
        trace := trace[p := trace[p] + [Put(f)]];
      } else {
        phase[p] := AwaitSecond;
      }
      OthersKept(p);
    }

    /** Table.cs:117-122: the wait on the second fork; a timeout releases the first fork. */
    method AcquireSecond(p: nat, w: Wait)
      requires Valid() && p < n && phase[p] == AwaitSecond
      modifies this`trace, owner, phase
      ensures Valid()
      ensures w == Ready && old(owner[SecondOf(p)]) == None ==>
        owner[..] == old(owner[..])[SecondOf(p) := Some(p)] &&
        phase[..] == old(phase[..])[p := HoldBoth] &&
        trace == old(trace)[p := old(trace[p]) + [Take(SecondOf(p))]]
      ensures w == Ready && old(owner[SecondOf(p)]) != None ==>
        owner[..] == old(owner[..]) && phase[..] == old(phase[..]) && trace == old(trace)
      ensures w == TimedOut ==>
        owner[..] == old(owner[..])[FirstOf(p) := None] &&
        phase[..] == old(phase[..])[p := Returned(true)] &&
        trace == old(trace)[p := old(trace[p]) + [Put(FirstOf(p))]]
      ensures w == Cancelled ==>
        owner[..] == old(owner[..]) && phase[..] == old(phase[..])[p := Aborted(true, false)] && trace == old(trace)
    {
      var f := FirstFork(philosophers[p]).id;
      var s := SecondFork(philosophers[p]).id;
      match w {
        case Ready =>
          if owner[s] == None {
            SecondTakenOk(n, p, owner[..], mealCounts[p], trace[p]);
            owner[s] := Some(p);
            phase[p] := HoldBoth;
            trace := trace[p := trace[p] + [Take(s)]];
          }
        case TimedOut =>
          FirstPutBackOk(n, p, owner[..], phase[p], mealCounts[p], trace[p]);
          owner[f] := None;
          phase[p] := Returned(true);
          trace := trace[p := trace[p] + [Put(f)]];
        case Cancelled =>
          phase[p] := Aborted(true, false);
      }
      OthersKept(p);
    }

    /** Table.cs:125-126: with both forks held, the meal is stamped and counted. */
    method Eat(p: nat, now: int)
      requires Valid() && p < n && phase[p] == HoldBoth
      modifies lastMeal, mealCounts, phase
      ensures Valid()
      ensures old(owner[FirstOf(p)]) == Some(p) && old(owner[SecondOf(p)]) == Some(p)
      ensures lastMeal[..] == old(lastMeal[..])[p := now]
      ensures mealCounts[..] == old(mealCounts[..])[p := old(mealCounts[p]) + 1]
      ensures phase[..] == old(phase[..])[p := Eating]
    {
      lastMeal[p] := now;
      mealCounts[p] := mealCounts[p] + 1;
      phase[p] := Eating;
      OthersKept(p);
    }

    /** Table.cs:129-132: the eating delay ends and both forks are released, first fork first. */
    method Release(p: nat, cancelled: bool)
      requires Valid() && p < n && phase[p] == Eating
      modifies this`trace, owner, phase
      ensures Valid()
      ensures cancelled ==>
        owner[..] == old(owner[..]) && phase[..] == old(phase[..])[p := Aborted(true, true)] && trace == old(trace)
      ensures !cancelled ==>
        owner[..] == old(owner[..])[FirstOf(p) := None][SecondOf(p) := None] &&
        phase[..] == old(phase[..])[p := Sleeping] &&
        trace == old(trace)[p := old(trace[p]) + [Put(FirstOf(p)), Put(SecondOf(p))]]
    {
      if cancelled {
        phase[p] := Aborted(true, true);
      } else {
        var f := FirstFork(philosophers[p]).id;
        var s := SecondFork(philosophers[p]).id;
        BothReleasedOk(n, p, owner[..], mealCounts[p], trace[p]);
        owner[f] := None;
        owner[s] := None;
        phase[p] := Sleeping;
        trace := trace[p := trace[p] + [Put(f), Put(s)]];
      }
      OthersKept(p);
    }

    /** Table.cs:136-139: the sleeping delay; the loop then starts over. */
    method Rest(p: nat, cancelled: bool)
      requires Valid() && p < n && phase[p] == Sleeping
      modifies phase
      ensures Valid()
      ensures phase[..] == old(phase[..])[p := if cancelled then Aborted(false, false) else Thinking]
    {
      phase[p] := if cancelled then Aborted(false, false) else Thinking;
      OthersKept(p);
    }

    /**
     * One pass of MonitorLoopAsync (Table.cs:151-178). The clock is read once
     * per philosopher: nows[i] is the reading taken when philosopher i is inspected.
     */
    method Scan(nows: seq<int>) returns (v: Liveness.Verdict)
      requires |nows| == lastMeal.Length == mealCounts.Length
      ensures v == Liveness.Judge(Liveness.Elapsed(nows, lastMeal[..]), mealCounts[..], timeToDie, Some(targetMeals))
    {
      ghost var elapsed := Liveness.Elapsed(nows, lastMeal[..]);
      for i := 0 to lastMeal.Length
        invariant forall j :: 0 <= j < i ==> elapsed[j] <= timeToDie
      {
        var lastMealTimestamp := lastMeal[i];
        var sinceLastMeal := nows[i] - lastMealTimestamp;
        if sinceLastMeal > timeToDie {
          return Liveness.Death(i);
        }
      }

      var allFinished := true;
      var i := 0;
      while i < mealCounts.Length
        invariant 0 <= i <= mealCounts.Length
        invariant allFinished
        invariant forall j :: 0 <= j < i ==> mealCounts[j] >= targetMeals
      {
        if mealCounts[i] < targetMeals {
          allFinished := false;
          break;
        }
        i := i + 1;
      }

      if allFinished {
        return Liveness.Success;
      }
      return Liveness.Continue;
    }
  }

  /** A freshly built table, with empty traces, satisfies the invariant. */
  lemma FreshTableValid(t: Table)
    requires t.n >= 1 && |t.trace| == t.n && t.lastMeal != t.mealCounts
    requires t.Built(t.timeToDie, t.timeToEat, t.timeToSleep, t.targetMeals)
    requires forall p :: 0 <= p < t.n ==> t.trace[p] == []
    ensures t.Valid()
  {
    forall p | 0 <= p < t.n
      ensures SeatOk(t.n, p, t.owner[..], t.phase[p], t.mealCounts[p], t.trace[p])
    {
      FreshSeatOk(t.n, p, t.owner[..]);
    }
  }

  /** A fork held by philosopher p is one of p's own two forks. */
  lemma OwnsOnlyOwnForks(t: Table, f: nat, p: nat)
    requires t.Valid() && f < t.n && t.owner[f] == Some(p)
    ensures p < t.n
    ensures f == t.philosophers[p].left.id || f == t.philosophers[p].right.id
  {
    assert SeatOk(t.n, p, t.owner[..], t.phase[p], t.mealCounts[p], t.trace[p]);
    assert f in HeldBy(t.phase[p], t.FirstOf(p), t.SecondOf(p));
  }

  /** Mutual exclusion: no fork is held by two different philosophers. */
  lemma HeldSetsDisjoint(t: Table, p: nat, q: nat)
    requires t.Valid() && p < t.n && q < t.n && p != q
    ensures forall f :: f in HeldBy(t.phase[p], t.FirstOf(p), t.SecondOf(p)) ==>
      f !in HeldBy(t.phase[q], t.FirstOf(q), t.SecondOf(q))
  {
    assert SeatOk(t.n, p, t.owner[..], t.phase[p], t.mealCounts[p], t.trace[p]);
    assert SeatOk(t.n, q, t.owner[..], t.phase[q], t.mealCounts[q], t.trace[q]);
    forall f | f in HeldBy(t.phase[p], t.FirstOf(p), t.SecondOf(p))
      ensures f !in HeldBy(t.phase[q], t.FirstOf(q), t.SecondOf(q))
    {
      assert f < t.n;
      assert t.owner[f] == Some(p);
    }
  }

  /** A philosopher that holds its second fork holds both of its forks. */
  lemma HolderOfBoth(t: Table, p: nat)
    requires t.Valid() && p < t.n && HoldsSecond(t.phase[p])
    ensures t.owner[p] == Some(p) && t.owner[Ring.RightOf(t.n, p)] == Some(p)
  {
    assert SeatOk(t.n, p, t.owner[..], t.phase[p], t.mealCounts[p], t.trace[p]);
    assert HoldsFirst(t.phase[p]);
  }

  /** A philosopher one of whose forks another philosopher holds does not hold both. */
  lemma OtherOwnerBlocksBoth(t: Table, q: nat, f: nat, p: nat)
    requires t.Valid() && q < t.n && f < t.n && p != q
    requires f == q || f == Ring.RightOf(t.n, q)
    requires t.owner[f] == Some(p)
    ensures !HoldsSecond(t.phase[q])
  {
    assert SeatOk(t.n, q, t.owner[..], t.phase[q], t.mealCounts[q], t.trace[q]);
  }

  /** Two neighbours never both hold both of their forks. */
  lemma NeighboursNeverBothEat(t: Table, p: nat)
    requires t.Valid() && p < t.n && t.n >= 2
    ensures !(HoldsSecond(t.phase[p]) && HoldsSecond(t.phase[Ring.RightOf(t.n, p)]))
  {
    var q := Ring.RightOf(t.n, p);
    if HoldsSecond(t.phase[p]) {
      HolderOfBoth(t, p);
      OtherOwnerBlocksBoth(t, q, q, p);
    }
  }

  /**
   * A circular wait in the table's state: each philosopher c[k] holds its
   * first fork and waits on its second, which philosopher c[k+1]
   * (cyclically) owns.
   */
  ghost predicate CircularWait(t: Table, c: seq<nat>)
    reads t, t.owner, t.phase
  {
    |c| >= 1 && t.owner.Length == t.n && t.phase.Length == t.n &&
    forall k :: 0 <= k < |c| ==>
      c[k] < t.n && t.phase[c[k]] == AwaitSecond && t.owner[t.SecondOf(c[k])] == Some(c[Ring.Next(k, |c|)])
  }

  /**
   * Deadlock freedom for two or more philosophers: no reachable state has a
   * circular wait, because an owner waiting on its own second fork holds
   * only its first, so the ownership cycle is a cycle of fork choices.
   */
  lemma NoCircularWait(t: Table, c: seq<nat>)
    requires t.Valid() && t.n >= 2
    ensures !CircularWait(t, c)
  {
    if CircularWait(t, c) {
      forall k | 0 <= k < |c|
        ensures SecondChoices(t.n)[c[k]] == FirstChoices(t.n)[c[Ring.Next(k, |c|)]]
      {
        var q := c[Ring.Next(k, |c|)];
        var f := t.SecondOf(c[k]);
        assert SeatOk(t.n, q, t.owner[..], t.phase[q], t.mealCounts[q], t.trace[q]);
        assert t.owner[..][f] == Some(q);
        assert f in HeldBy(t.phase[q], t.FirstOf(q), t.SecondOf(q));
      }
      assert Ring.WaitCycle(FirstChoices(t.n), SecondChoices(t.n), c);
      NoWaitCycle(t.n, c);
    }
  }

  /**
   * Release symmetry: a philosopher in a phase that holds no fork, in
   * particular one whose loop returned normally, owns no fork, and every fork
   * it ever took it put back exactly as often.
   */
  lemma IdleSeatIsBalanced(t: Table, p: nat)
    requires t.Valid() && p < t.n && !HoldsFirst(t.phase[p])
    ensures forall f :: 0 <= f < t.n ==> t.owner[f] != Some(p)
    ensures Balanced(t.trace[p])
  {
    IdleSeatOk(t.n, p, t.owner[..], t.phase[p], t.mealCounts[p], t.trace[p]);
  }

  /** The value-level half of IdleSeatIsBalanced. */
  lemma IdleSeatOk(n: nat, p: nat, own: seq<Option<nat>>, ph: Phase, count: int, tr: seq<Action>)
    requires SeatOk(n, p, own, ph, count, tr) && !HoldsFirst(ph)
    ensures forall f :: 0 <= f < n ==> own[f] != Some(p)
    ensures Balanced(tr)
  {
    IdleTraceBalanced(Completed(ph, count), FirstFork(Seat(n, p)).id, SecondFork(Seat(n, p)).id, ph, tr);
  }

  /** Completed cycles followed by what a phase holding no fork leaves in flight are balanced. */
  lemma IdleTraceBalanced(k: nat, f: nat, s: nat, ph: Phase, tr: seq<Action>)
    requires tr == Cycles(k, f, s) + InFlight(ph, f, s) && !HoldsFirst(ph) && !HoldsSecond(ph)
    ensures Balanced(tr)
  {
    RepeatTwoFork(k, Cycle(f, s), f, s);
    var c := Cycles(k, f, s);
    if ph == Returned(true) {
      assert tr == c + [Take(f), Put(f)];
      TakePutBalanced(f);
      BalancedConcat(c, [Take(f), Put(f)]);
    } else {
      NothingInFlight(ph, f, s);
      assert tr == c;
    }
  }

  /** A phase that holds no fork and did not take one this iteration has nothing in flight. */
  lemma NothingInFlight(ph: Phase, f: nat, s: nat)
    requires !HoldsFirst(ph) && !HoldsSecond(ph) && ph != Returned(true)
    ensures InFlight(ph, f, s) == []
  {
  }

  /** A lone philosopher waiting for its second fork already holds it, so that wait can only time out or be cancelled. */
  lemma LoneSeatSecondForkBusy(t: Table)
    requires t.Valid() && t.n == 1 && t.phase[0] == AwaitSecond
    ensures t.owner[t.SecondOf(0)] == Some(0)
  {
    assert SeatOk(1, 0, t.owner[..], t.phase[0], t.mealCounts[0], t.trace[0]);
  }
}
