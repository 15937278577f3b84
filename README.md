# Dining philosophers, modelled in Dafny

The repository simulates the dining-philosophers problem twice:

- `DiningPhilosophers/` runs a preemptive version. Each philosopher loop and the liveness monitor is its own thread. The forks are capacity-1 semaphores, and every wait has a timeout equal to the philosopher's remaining time to live.
- `DiningPhilosophersCoroutine/` runs a task-based version. It starts the philosophers and the monitor as `async` tasks without `Task.Run` (the comment at DiningPhilosophersCoroutine/Table.cs:33 calls this a coroutine design). A console program has no synchronization context, so once an `await` really suspends, the continuation runs on a thread-pool thread, and tasks can then run at the same time.

This project models the sequential decision logic inside both versions:

- how the ring of forks and philosophers is built;
- each version's fork-ordering rule (lower id first, or the even/odd parity rule);
- one philosopher's loop as a state machine over a fork-ownership array;
- one pass of each liveness monitor.

On that model it proves:

- mutual exclusion;
- that a philosopher only holds its own two forks;
- release symmetry on the exits that hold no fork;
- the absence of circular waits for two or more philosophers, and the self-wait of a single one;
- the monitor's verdict as a reference function (death of the lowest overdue index, success only with a target, otherwise continue).

How the model is organised:

- A semaphore is an entry of an owner array, `Some(p)` while philosopher `p` holds it.
- A wait either takes a free fork, stays blocked on a busy one, or fails by timeout or cancellation, as the caller chooses.
- Each step method is one stretch of a philosopher's loop between two suspension points, and the model treats each stretch as one atomic step. A run of the model is any sequence of these calls. The safety results hold for this step-atomic system; "## Left out" says what that does not cover.
- A ghost trace records each philosopher's `Take`/`Put` operations. The invariant ties it to the completed cycles plus the cycle under way.

Modules:

- `Common`: shared datatypes and the balance predicate.
- `Ring`: ring indices and circular waits.
- `Liveness`: the monitor's verdict.
- `ThreadedTable`: `DiningPhilosophers/Table.cs`.
- `CoopPhilosopher`: `DiningPhilosophersCoroutine/Philosopher.cs`.
- `CoopTable`: `DiningPhilosophersCoroutine/Table.cs`.

Behaviour of the code that the model reproduces, and that a reader might not expect:

- Neither version releases the forks it holds when it is cancelled. A cancelled `WaitAsync` or `Task.Delay` throws past the releases (DiningPhilosophers/Table.cs:104-132; DiningPhilosophersCoroutine/Philosopher.cs:44-69). The threaded loop lets the exception end the task, and the coroutine loop catches it and returns. So the `Aborted` and `Finished` stages keep the forks they held (`ThreadedTable.Table.Release`, `CoopPhilosopher.CancelledKeepsForks`).
- Only the threaded constructor rejects N < 1 (DiningPhilosophers/Table.cs:27). The cooperative table accepts N = 0, and with a meal target its first scan reports success (`Liveness.Judge`, last ensures). A negative N fails there only in the array allocation (DiningPhilosophersCoroutine/Table.cs:14; `CoopTable.NewTable`).
- The threaded version releases the first fork, then the second (DiningPhilosophers/Table.cs:131-132). The cooperative version releases the second, then the first (DiningPhilosophersCoroutine/Philosopher.cs:57-58).
- A single cooperative philosopher takes its only fork and then waits on it again. It stays blocked until cancellation (`CoopTable.LoneSeatSecondForkBusy`). The threaded one does the same until its timeout (`ThreadedTable.LoneSeatSecondForkBusy`).
- A death verdict names the philosopher's index in the arrays. The threaded monitor logs that index (DiningPhilosophers/Table.cs:157). The cooperative monitor logs the philosopher's id, which is the index plus one (DiningPhilosophersCoroutine/Table.cs:56).

## Model

| member | source | states |
|---|---|---|
| Ring.RightOf | DiningPhilosophers/Table.cs:46 | the right fork of seat i is i + 1, or 0 for the last seat; it is the seat's own left fork only when n = 1 |
| Ring.ForkUsers | DiningPhilosophers/Table.cs:43-48 | fork j is used by seat i exactly when i is j or (j − 1) mod n, so it belongs to no other philosopher |
| Ring.ChainClimbs | DiningPhilosophers/Table.cs:93-94 | along an open wait chain (each member's second choice is the next member's first, no closing edge required) of strictly ordered choices, the first fork of the k-th member is at least k above the first one's |
| Ring.OrderedChoicesHaveNoCycle | DiningPhilosophers/Table.cs:93-94 | if every seat picks a strictly lower fork first, no circular wait exists: the chain climbs, and the closing edge would need a climb back |
| Liveness.FirstOverdue | DiningPhilosophers/Table.cs:151-160 | returns the lowest index whose elapsed time exceeds the time to die, and None exactly when nobody is overdue |
| Liveness.Judge | DiningPhilosophers/Table.cs:151-178 | Death exactly when someone is overdue, naming the lowest such index; Success exactly when a target exists, nobody is overdue and every count reached it; never Success without a target; Success for an empty table with a target |
| ThreadedTable.SecondFork | DiningPhilosophers/Table.cs:93-94 | first and second fork are {left, right}; strictly ordered by id when left ≠ right, and the same fork otherwise |
| ThreadedTable.RingForkOrder | DiningPhilosophers/Table.cs:43-48 | on the ring with n ≥ 2 each seat's first fork id is strictly below its second and is i, or 0 for the last seat; with n = 1 both are fork 0 |
| ThreadedTable.FirstChoicesCollide | DiningPhilosophers/Table.cs:93 | seats 0 and n − 1 both request fork 0 first, so the first choices are not all distinct |
| ThreadedTable.NoWaitCycle | DiningPhilosophers/Table.cs:93-94 | with n ≥ 2 the lower-id-first rule admits no circular wait |
| ThreadedTable.LoneSeatWaitsOnItself | DiningPhilosophers/Table.cs:46 | with n = 1 the single seat waits on itself |
| Common.RepeatBalanced | DiningPhilosophers/Table.cs:91-141 | any number of iterations of a balanced cycle of fork operations is balanced |
| Common.RepeatTwoFork | DiningPhilosophers/Table.cs:129-132 | repeating a cycle that takes and puts back each of its two forks once, in any order, is balanced |
| ThreadedTable.NewTable | DiningPhilosophers/Table.cs:27 | fails exactly when fewer than one philosopher is requested, before anything is built; otherwise returns a valid table in the constructor's initial state whose table object and arrays are all freshly allocated, so a caller may step it |
| ThreadedTable.Table.constructor | DiningPhilosophers/Table.cs:28-48 | fork i has id i, philosopher i has fork i on the left and fork (i + 1) mod n on the right, all forks free, counts zero, everyone thinking |
| ThreadedTable.Table.Start | DiningPhilosophers/Table.cs:52-57 | records the start time and gives every last-meal timestamp the same baseline |
| ThreadedTable.Table.AliveCheck | DiningPhilosophers/Table.cs:91-101 | cancellation or no remaining time (timeToDie − (now − lastMeal) ≤ 0) ends the loop holding nothing; otherwise the philosopher waits for its first fork |
| ThreadedTable.Table.AcquireFirst | DiningPhilosophers/Table.cs:104-105 | a free first fork becomes owned; a busy one keeps the philosopher waiting; a timeout returns holding nothing; cancellation aborts; the invariant is kept |
| ThreadedTable.Table.Recheck | DiningPhilosophers/Table.cs:107-115 | the remaining time is recomputed; if it is gone, the first fork is released once and the loop returns; otherwise the philosopher waits for the second |
| ThreadedTable.Table.AcquireSecond | DiningPhilosophers/Table.cs:117-122 | a free second fork becomes owned; a timeout releases the first fork once and returns; cancellation aborts holding the first fork |
| ThreadedTable.Table.Eat | DiningPhilosophers/Table.cs:125-126 | only with both forks held: its own timestamp becomes now and its own count grows by one, and no other entry changes |
| ThreadedTable.Table.Release | DiningPhilosophers/Table.cs:129-132 | after the eating delay both forks are released, first then second; a cancelled delay aborts holding both |
| ThreadedTable.Table.Rest | DiningPhilosophers/Table.cs:136-139 | after the sleeping delay the loop starts over; a cancelled delay aborts holding nothing |
| ThreadedTable.Table.Scan | DiningPhilosophers/Table.cs:151-178 | one monitor pass, with its own clock reading per philosopher, returns exactly Liveness.Judge with the target, for any timestamps and counts |
| ThreadedTable.OwnsOnlyOwnForks | DiningPhilosophers/Table.cs:104-122 | a fork's owner is a philosopher of the table and the fork is its left or right one |
| ThreadedTable.HeldSetsDisjoint | DiningPhilosophers/Table.cs:104-132 | mutual exclusion: the forks two different philosophers hold are disjoint |
| ThreadedTable.HolderOfBoth | DiningPhilosophers/Table.cs:117-126 | a philosopher past its second wait owns both of its forks |
| ThreadedTable.OtherOwnerBlocksBoth | DiningPhilosophers/Table.cs:117-126 | a philosopher one of whose forks is owned by someone else has not got past its second wait |
| ThreadedTable.NeighboursNeverBothEat | DiningPhilosophers/Table.cs:117-132 | with n ≥ 2 two neighbours never both hold both forks |
| ThreadedTable.NoCircularWait | DiningPhilosophers/Table.cs:93-117 | with n ≥ 2 no valid state has philosophers each holding their first fork and waiting on a second fork that the next one (cyclically) owns |
| ThreadedTable.IdleSeatIsBalanced | DiningPhilosophers/Table.cs:101-132 | a philosopher holding no fork, including after every non-cancelled exit, owns nothing and has put back each fork as often as it took it |
| ThreadedTable.IdleTraceBalanced | DiningPhilosophers/Table.cs:111-122 | completed iterations followed by an exit that took the first fork and released it, or took nothing, are balanced |
| ThreadedTable.LoneSeatSecondForkBusy | DiningPhilosophers/Table.cs:117-122 | with n = 1 the second wait is on the fork the philosopher already owns |
| CoopPhilosopher.SecondChoice | DiningPhilosophersCoroutine/Philosopher.cs:41-42 | first and second fork are always {left, right}, and different whenever left ≠ right |
| CoopPhilosopher.IdleTraceBalanced | DiningPhilosophersCoroutine/Philosopher.cs:57-58 | completed take-take-put-put cycles, second fork released before the first, with nothing in flight, are balanced |
| CoopPhilosopher.Philosopher.constructor | DiningPhilosophersCoroutine/Philosopher.cs:17-32 | no meal yet, last meal at the start time, left first exactly for even ids; on forks it does not own, the new philosopher satisfies its invariant |
| CoopPhilosopher.Philosopher.Begin | DiningPhilosophersCoroutine/Philosopher.cs:37-39 | a cancelled token ends the task holding nothing; otherwise the philosopher waits for its first fork |
| CoopPhilosopher.Philosopher.AcquireFirst | DiningPhilosophersCoroutine/Philosopher.cs:44-45 | a free first fork becomes owned; a busy one keeps it waiting; cancellation ends the task holding nothing |
| CoopPhilosopher.Philosopher.AcquireSecond | DiningPhilosophersCoroutine/Philosopher.cs:47-50 | a free second fork becomes owned and only then is the last meal set to now; cancellation ends the task still holding the first fork |
| CoopPhilosopher.Philosopher.FinishEating | DiningPhilosophersCoroutine/Philosopher.cs:53-58 | after the eating delay the count grows by exactly one and the forks are released, second then first; cancellation ends the task holding both |
| CoopPhilosopher.Philosopher.FinishSleeping | DiningPhilosophersCoroutine/Philosopher.cs:62-63 | after the sleeping delay the loop starts over; cancellation ends the task |
| CoopPhilosopher.IdleIsBalanced | DiningPhilosophersCoroutine/Philosopher.cs:44-63 | a philosopher holding no fork owns nothing and has put back each fork as often as it took it |
| CoopPhilosopher.CancelledKeepsForks | DiningPhilosophersCoroutine/Philosopher.cs:66-69 | a task cancelled while holding forks returns still owning them, and its trace is unbalanced |
| CoopTable.FirstChoicesCollide | DiningPhilosophersCoroutine/Philosopher.cs:41 | with n ≥ 2, ids 1 and 2 both pick fork 1 first |
| CoopTable.WaitEdge | DiningPhilosophersCoroutine/Philosopher.cs:41-42 | the only seat whose second fork is another seat's first fork is seat 0, waiting on seat n − 1, and only for odd n |
| CoopTable.NoWaitCycle | DiningPhilosophersCoroutine/Philosopher.cs:41-42 | with n ≥ 2 the parity rule admits no circular wait |
| CoopTable.LoneSeatWaitsOnItself | DiningPhilosophersCoroutine/Table.cs:22-24 | with n = 1 the single seat waits on itself |
| CoopTable.NewTable | DiningPhilosophersCoroutine/Table.cs:14-15 | fails exactly for a negative size; zero philosophers is a valid empty table; otherwise the table and its fork array and philosophers are fresh, every fork is free, and every philosopher is thinking with no meals and the start time as last meal |
| CoopTable.Table.constructor | DiningPhilosophersCoroutine/Table.cs:11-25 | n free forks; seat i has id i + 1, left fork i, right fork (i + 1) mod n, no meals, and the table's start time as last meal |
| CoopTable.Table.Resume | DiningPhilosophersCoroutine/Philosopher.cs:33-70 | resuming one philosopher keeps every philosopher valid. For each stage it gives the next stage, the exact new forks and the new trace. A meal is counted only when eating ends uncancelled. The last meal becomes now only when the second fork is taken. A finished task is left unchanged |
| CoopTable.Table.MonitorScan | DiningPhilosophersCoroutine/Table.cs:49-71 | one pass with one clock reading returns exactly Liveness.Judge with the optional target, for any timestamps and counts |
| CoopTable.OwnsOnlyOwnForks | DiningPhilosophersCoroutine/Philosopher.cs:44-58 | a fork's owner id is between 1 and n and the fork is that philosopher's left or right one |
| CoopTable.HeldSetsDisjoint | DiningPhilosophersCoroutine/Philosopher.cs:44-58 | mutual exclusion: the forks two different philosophers hold are disjoint |
| CoopTable.HolderOfBoth | DiningPhilosophersCoroutine/Philosopher.cs:44-53 | a philosopher eating, or cancelled while eating, owns both of its forks |
| CoopTable.NeighboursNeverBothEat | DiningPhilosophersCoroutine/Philosopher.cs:44-58 | with n ≥ 2 two neighbours never both hold both forks |
| CoopTable.LoneSeatSecondForkBusy | DiningPhilosophersCoroutine/Philosopher.cs:44-47 | with n = 1 both choices are fork 0 and the second wait is on the fork the philosopher already owns |

## Left out

- Steps are atomic in the model. In the program, threads, and the task-based version's thread-pool continuations, can interleave inside a step. For example, another philosopher can run between the two releases at DiningPhilosophers/Table.cs:131-132 or at DiningPhilosophersCoroutine/Philosopher.cs:57-58 and take the fork just released while the first philosopher still owns the other. No `Phase` or `Stage` stands for that intermediate state, so the lemmas about valid states cover only the states between steps.
- Thread and task scheduling is not modelled: `Task.Run`, `Task.WhenAll`, the interleaving of `async`/`await`, and the `CancellationTokenSource`. Concurrency is represented by calling the step methods in any order. Cancellation is a boolean input to each step.
- Memory ordering is not modelled. `Interlocked.Exchange`, `Interlocked.Increment` and `Volatile.Read` are plain array reads and writes.
- The blocking behaviour of `SemaphoreSlim` is not modelled: which waiter wakes, and the actual passing of a timeout. A wait takes a free fork, stays blocked, or fails as the caller chooses.
- The clock (`TimeUtils.NowMs`) is not modelled. Each step takes the current time as a parameter, and no monotonicity is assumed.
- Timing-only behaviour is not modelled: the eating and sleeping delays, the monitor poll intervals, the 10 ms head start for odd ids in the cooperative version, and the monitor's outer polling loop. Each monitor is modelled as one pass.
- Console output, `Log`, the `Report*` methods, `TimestampMs` and the program entry points are not modelled.
- ThreadedTable.Table.AcquireFirst: does not model the `(int)` narrowing of the remaining time passed as the first wait's timeout (DiningPhilosophers/Table.cs:104), because the outcome of a wait is an input to the step.
- ThreadedTable.Table.AcquireSecond: does not model the same `(int)` narrowing for the second wait (DiningPhilosophers/Table.cs:117), for the same reason.
- ThreadedTable.Table.Eat: does not model 32-bit wrap-around of the meal counter, because integers are unbounded here. The same holds for `CoopPhilosopher.Philosopher.FinishEating`.
- CoopTable.NewTable: models the exception from allocating an array of negative size as an error result.
- CoopTable.Table.constructor: keeps the philosophers, which are never replaced after construction, in a sequence rather than an array.
