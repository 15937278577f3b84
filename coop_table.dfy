/**
 * The table of the cooperative simulation
 * (DiningPhilosophersCoroutine/Table.cs): it builds the ring of forks and
 * philosophers, lets a scheduler resume one philosopher at a time for one
 * atomic step, and runs the monitor's scan.
 */
module CoopTable {
  import opened Common
  import Ring
  import Liveness
  import opened CoopPhilosopher

  /** The simulation's parameters (DiningPhilosophersCoroutine/Settings.cs:2-8); TargetMeals may be absent. */
  datatype Settings = Settings(n: int, timeToDie: int, timeToEat: int, timeToSleep: int, targetMeals: Option<int>)

  /** The fork each seat requests first: seat i has id i + 1, left fork i and right fork i + 1 mod n. */
  function FirstChoices(n: nat): seq<nat>
  {
    seq(n, i requires 0 <= i < n => FirstChoice(PicksLeftFirst(i + 1), i, Ring.RightOf(n, i)))
  }

  function SecondChoices(n: nat): seq<nat>
  {
    seq(n, i requires 0 <= i < n => SecondChoice(PicksLeftFirst(i + 1), i, Ring.RightOf(n, i)))
  }

  /**
   * The parity rule does not order the forks globally: seats 0 and 1 (ids 1
   * and 2) both go for fork 1 first.
   */
  lemma FirstChoicesCollide(n: nat)
    requires n >= 2
    ensures FirstChoices(n)[0] == 1 && FirstChoices(n)[1] == 1
  {
  }

  /**
   * The only seat that can wait for its second fork held as a first fork by
   * another seat is seat 0, waiting on seat n - 1, and only when n is odd
   * (seat n - 1 then has an odd id too, so it reaches for its right fork,
   * fork 0, first, and fork 0 is seat 0's second fork).
   */
  lemma WaitEdge(n: nat, p: nat, q: nat)
    requires n >= 2 && p < n && q < n
    requires SecondChoices(n)[p] == FirstChoices(n)[q]
    ensures p == 0 && q == n - 1 && n % 2 == 1
  {
    Ring.RightLeftInverse(n, p);
    Ring.RightLeftInverse(n, q);
  }

  /** With two or more seats there is no cycle of seats each waiting on the next one's first fork. */
  lemma NoWaitCycle(n: nat, c: seq<nat>)
    requires n >= 2
    ensures !Ring.WaitCycle(FirstChoices(n), SecondChoices(n), c)
  {
    if Ring.WaitCycle(FirstChoices(n), SecondChoices(n), c) {
      var m := |c|;
      var k := Ring.Next(0, m);
      WaitEdge(n, c[0], c[k]);
      WaitEdge(n, c[k], c[Ring.Next(k, m)]);
    }
  }

  /** A single seat's two forks are the same fork, so that seat waits on itself. */
  lemma LoneSeatWaitsOnItself()
    ensures Ring.WaitCycle(FirstChoices(1), SecondChoices(1), [0])
  {
    assert FirstChoices(1) == [0] && SecondChoices(1) == [0];
  }

  datatype TableError = NegativeSize

  /** Table.cs:14-15: arrays of a negative size raise an exception; zero philosophers is a legal, empty table. */
  method NewTable(config: Settings, startTime: int) returns (r: Result<Table, TableError>)
    ensures r.Err? <==> config.n < 0
    ensures r.Ok? ==> fresh(r.value) && r.value.Valid() && r.value.config == config && r.value.startTime == startTime
    ensures r.Ok? ==> fresh(r.value.forks) && forall f :: 0 <= f < r.value.forks.Length ==> r.value.forks[f] == None
    ensures r.Ok? ==> forall i :: 0 <= i < |r.value.philosophers| ==>
      fresh(r.value.philosophers[i]) && r.value.philosophers[i].mealsEaten == 0 &&
      r.value.philosophers[i].lastMealTime == startTime && r.value.philosophers[i].stage == Thinking
  {
    if config.n < 0 {
      return Err(NegativeSize);
    }
    var t := new Table(config, startTime);
    return Ok(t);
  }

  /** Seat k of a ring of n as the table's constructor leaves it: a fresh philosopher over forks fs. */
  ghost predicate Seated(p: Philosopher, k: nat, n: nat, fs: array<Option<int>>, startTime: int)
    reads p, fs
  {
    k < n && p.id == k + 1 && p.forks == fs && p.left == k && p.right == Ring.RightOf(n, k) &&
    p.Valid() && p.mealsEaten == 0 && p.lastMealTime == startTime && p.stage == Thinking
  }

  class Table {
    const config: Settings
    const forks: array<Option<int>>
    const philosophers: seq<Philosopher>
    const startTime: int

    ghost predicate Valid()
      reads this, forks, philosophers
    {
      config.n >= 0 && forks.Length == config.n && |philosophers| == config.n &&
      (forall i :: 0 <= i < config.n ==>
        philosophers[i].id == i + 1 && philosophers[i].forks == forks &&
        philosophers[i].left == i && philosophers[i].right == Ring.RightOf(config.n, i)) &&
      (forall i :: 0 <= i < config.n ==> philosophers[i].Valid()) &&
      (forall f :: 0 <= f < config.n && forks[f].Some? ==> 1 <= forks[f].value <= config.n)
    }

    ghost function LastMealTimes(): (r: seq<int>)
      reads philosophers
      ensures |r| == |philosophers|
      ensures forall i :: 0 <= i < |r| ==> r[i] == philosophers[i].lastMealTime
    {
      seq(|philosophers|, i reads philosophers requires 0 <= i < |philosophers| => philosophers[i].lastMealTime)
    }

    ghost function MealCounts(): (r: seq<int>)
      reads philosophers
      ensures |r| == |philosophers|
      ensures forall i :: 0 <= i < |r| ==> r[i] == philosophers[i].mealsEaten
    {
      seq(|philosophers|, i reads philosophers requires 0 <= i < |philosophers| => philosophers[i].mealsEaten)
    }

    /**
     * Table.cs:11-25: n free forks, and seat i gets id i + 1, left fork i,
     * right fork (i + 1) mod n and the table's start time as its last meal.
     */
    constructor (config: Settings, startTime: int)
      requires config.n >= 0
      ensures Valid()
      ensures this.config == config && this.startTime == startTime
      ensures fresh(forks) && forall f :: 0 <= f < forks.Length ==> forks[f] == None
      ensures forall i :: 0 <= i < |philosophers| ==>
        fresh(philosophers[i]) && philosophers[i].mealsEaten == 0 &&
        philosophers[i].lastMealTime == startTime && philosophers[i].stage == Thinking
    {
      this.config := config;
      this.startTime := startTime;
      var fs := new Option<int>[config.n];
      for i := 0 to config.n
        invariant forall f :: 0 <= f < i ==> fs[f] == None
      {
        fs[i] := None;
      }
      var ps: seq<Philosopher> := [];
      for i := 0 to config.n
        invariant |ps| == i
        invariant forall f :: 0 <= f < config.n ==> fs[f] == None
        invariant forall k :: 0 <= k < i ==> fresh(ps[k]) && Seated(ps[k], k, config.n, fs, startTime)
      {
        var p := new Philosopher(i + 1, fs, i, Ring.RightOf(config.n, i), startTime);
        assert Seated(p, i, config.n, fs, startTime);
        ps := ps + [p];
      }
      forks := fs;
      philosophers := ps;
    }

    /**
     * The scheduler resumes philosopher i at its current suspension point and
     * runs it to the next one (Philosopher.cs:37-69); its token is
     * `cancelled` and the clock reads `now`. Only that philosopher and the
     * forks change, and only by taking free forks for it or putting back its
     * own; the last meal is stamped only when the second fork is taken.
     */
    method Resume(i: nat, cancelled: bool, now: int)
      requires Valid() && i < config.n
      modifies philosophers[i], forks
      ensures Valid()
      ensures OnlyOwnChanges(old(forks[..]), forks[..], i + 1)
      ensures !old(philosophers[i].stage).Finished? && cancelled ==> philosophers[i].stage.Finished?
      ensures var p := philosophers[i];
        old(p.stage) == Thinking ==>
          p.stage == (if cancelled then Finished(false, false) else AwaitFirst) &&
          forks[..] == old(forks[..]) && p.trace == old(p.trace)
      ensures var p := philosophers[i];
        old(p.stage) == AwaitFirst ==>
          if cancelled then
            p.stage == Finished(false, false) && forks[..] == old(forks[..]) && p.trace == old(p.trace)
          else if old(forks[p.First()]) == None then
            p.stage == AwaitSecond && forks[..] == old(forks[..])[p.First() := Some(i + 1)] &&
            p.trace == old(p.trace) + [Take(p.First())]
          else
            p.stage == AwaitFirst && forks[..] == old(forks[..]) && p.trace == old(p.trace)
      ensures var p := philosophers[i];
        old(p.stage) == AwaitSecond ==>
          if cancelled then
            p.stage == Finished(true, false) && forks[..] == old(forks[..]) && p.trace == old(p.trace)
          else if old(forks[p.Second()]) == None then
            p.stage == Eating && forks[..] == old(forks[..])[p.Second() := Some(i + 1)] &&
            p.trace == old(p.trace) + [Take(p.Second())]
          else
            p.stage == AwaitSecond && forks[..] == old(forks[..]) && p.trace == old(p.trace)
      ensures var p := philosophers[i];
        old(p.stage) == Eating ==>
          if cancelled then
            p.stage == Finished(true, true) && forks[..] == old(forks[..]) && p.trace == old(p.trace)
          else
            p.stage == Sleeping && forks[..] == old(forks[..])[p.Second() := None][p.First() := None] &&
            p.trace == old(p.trace) + [Put(p.Second()), Put(p.First())]
      ensures var p := philosophers[i];
        old(p.stage) == Sleeping ==>
          p.stage == (if cancelled then Finished(false, false) else Thinking) &&
          forks[..] == old(forks[..]) && p.trace == old(p.trace)
      ensures var p := philosophers[i];
        old(p.stage).Finished? ==>
          p.stage == old(p.stage) && forks[..] == old(forks[..]) && p.trace == old(p.trace)
      ensures var p := philosophers[i];
        p.mealsEaten == old(p.mealsEaten) + (if old(p.stage) == Eating && !cancelled then 1 else 0)
      ensures var p := philosophers[i];
        p.lastMealTime ==
          if old(p.stage) == AwaitSecond && !cancelled && old(forks[p.Second()]) == None then now
          else old(p.lastMealTime)
    {
      var p := philosophers[i];
      match p.stage {
        case Thinking => p.Begin(cancelled);
        case AwaitFirst => p.AcquireFirst(cancelled);
        case AwaitSecond => p.AcquireSecond(cancelled, now);
        case Eating => p.FinishEating(cancelled);
        case Sleeping => p.FinishSleeping(cancelled);
        case Finished(_, _) =>
      }
      StepKeepsValid(i);
    }

    /**
     * A step of philosopher i that leaves it valid, touches only free forks
     * and its own, and leaves every other philosopher alone keeps the table valid.
     */
    twostate lemma StepKeepsValid(i: nat)
      requires old(Valid()) && i < config.n && philosophers[i].Valid()
      requires OnlyOwnChanges(old(forks[..]), forks[..], i + 1)
      requires forall j :: 0 <= j < config.n && j != i ==> unchanged(philosophers[j])
      ensures Valid()
    {
      forall j | 0 <= j < config.n && j != i
        ensures philosophers[j].Valid()
      {
        var q := philosophers[j];
        assert old(q.Valid());
        OtherUnaffected(i + 1, q.id, q.First(), q.Second(), old(forks[..]), forks[..], q.stage, q.mealsEaten, q.trace);
      }
    }

    /**
     * One pass of the monitor (Table.cs:49-71): the first philosopher, in
     * seat order, whose last meal is more than timeToDie before `now` dies
     * (the verdict names its seat k; the log line prints its id, k + 1);
     * otherwise, with a target set, success once everybody has eaten that
     * many meals; otherwise the monitor carries on.
     */
    method MonitorScan(now: int) returns (v: Liveness.Verdict)
      ensures v == Liveness.Judge(Liveness.ElapsedAt(now, LastMealTimes()), MealCounts(), config.timeToDie, config.targetMeals)
    {
      ghost var elapsed := Liveness.ElapsedAt(now, LastMealTimes());
      var allSatisfied := true;
      for k := 0 to |philosophers|
        invariant forall j :: 0 <= j < k ==> elapsed[j] <= config.timeToDie
        invariant allSatisfied <==>
          (config.targetMeals.None? || forall j :: 0 <= j < k ==> philosophers[j].mealsEaten >= config.targetMeals.value)
      {
        var p := philosophers[k];
        if now - p.lastMealTime > config.timeToDie {
          return Liveness.Death(k);
        }
        if config.targetMeals.Some? && p.mealsEaten < config.targetMeals.value {
          allSatisfied := false;
        }
      }
      if config.targetMeals.Some? && allSatisfied {
        return Liveness.Success;
      }
      return Liveness.Continue;
    }
  }

  /** A fork is only ever held by one of the two philosophers either side of it. */
  lemma OwnsOnlyOwnForks(t: Table, f: nat, k: int)
    requires t.Valid() && f < t.config.n && t.forks[f] == Some(k)
    ensures 1 <= k <= t.config.n
    ensures f == k - 1 || f == Ring.RightOf(t.config.n, k - 1)
  {
    var p := t.philosophers[k - 1];
    assert f in HeldBy(p.stage, p.First(), p.Second());
  }

  /** Mutual exclusion: no fork is held by two different philosophers. */
  lemma HeldSetsDisjoint(t: Table, i: nat, j: nat)
    requires t.Valid() && i < t.config.n && j < t.config.n && i != j
    ensures forall f :: f in HeldBy(t.philosophers[i].stage, t.philosophers[i].First(), t.philosophers[i].Second()) ==>
      f !in HeldBy(t.philosophers[j].stage, t.philosophers[j].First(), t.philosophers[j].Second())
  {
    var p, q := t.philosophers[i], t.philosophers[j];
    forall f | f in HeldBy(p.stage, p.First(), p.Second())
      ensures f !in HeldBy(q.stage, q.First(), q.Second())
    {
      assert f < t.config.n;
      assert t.forks[f] == Some(i + 1);
    }
  }

  /** A philosopher eating, or cancelled while eating, holds both of its forks. */
  lemma HolderOfBoth(t: Table, i: nat)
    requires t.Valid() && i < t.config.n && HoldsSecond(t.philosophers[i].stage)
    ensures t.forks[i] == Some(i + 1) && t.forks[Ring.RightOf(t.config.n, i)] == Some(i + 1)
  {
    var p := t.philosophers[i];
    assert p.First() in HeldBy(p.stage, p.First(), p.Second());
    assert p.Second() in HeldBy(p.stage, p.First(), p.Second());
  }

  /** Mutual exclusion: with two or more seats, neighbours never both hold both their forks. */
  lemma NeighboursNeverBothEat(t: Table, i: nat)
    requires t.Valid() && t.config.n >= 2 && i < t.config.n
    ensures !(HoldsSecond(t.philosophers[i].stage) && HoldsSecond(t.philosophers[Ring.RightOf(t.config.n, i)].stage))
  {
    var j := Ring.RightOf(t.config.n, i);
    if HoldsSecond(t.philosophers[i].stage) && HoldsSecond(t.philosophers[j].stage) {
      HolderOfBoth(t, i);
      HolderOfBoth(t, j);
    }
  }

  /**
   * A lone philosopher that holds its fork waits for it a second time: its
   * second fork is the one it already owns, so only cancellation ends the wait.
   */
  lemma LoneSeatSecondForkBusy(t: Table)
    requires t.Valid() && t.config.n == 1 && t.philosophers[0].stage == AwaitSecond
    ensures t.philosophers[0].Second() == t.philosophers[0].First() == 0
    ensures t.forks[t.philosophers[0].Second()] == Some(1)
  {
    var p := t.philosophers[0];
    assert p.First() in HeldBy(p.stage, p.First(), p.Second());
  }
}
