/**
 * The judgement one pass of a liveness monitor reaches. Both monitors scan
 * the philosophers in array order; the first one whose time since its last
 * meal exceeds the time to die is reported, and only if nobody is overdue is
 * the completion target consulted.
 */
module Liveness {
  import opened Common

  datatype Verdict = Death(index: nat) | Success | Continue

  /** The lowest index whose elapsed time exceeds timeToDie, if any. */
  function FirstOverdue(elapsed: seq<int>, timeToDie: int): (r: Option<nat>)
    ensures r.Some? ==> r.value < |elapsed| && elapsed[r.value] > timeToDie
    ensures r.Some? ==> forall j :: 0 <= j < r.value ==> elapsed[j] <= timeToDie
    ensures r.None? <==> forall j :: 0 <= j < |elapsed| ==> elapsed[j] <= timeToDie
  {
    if |elapsed| == 0 then None
    else if elapsed[0] > timeToDie then Some(0)
    else match FirstOverdue(elapsed[1..], timeToDie)
      case None => None
      case Some(i) => Some(i + 1)
  }

  /** Every meal count has reached the target. */
  predicate AllReached(meals: seq<int>, target: int)
  {
    forall i :: 0 <= i < |meals| ==> meals[i] >= target
  }

  /**
   * The outcome of one scan, given each philosopher's elapsed time since its
   * last meal and its meal count. `target` is None when no meal target is
   * configured.
   */
  function Judge(elapsed: seq<int>, meals: seq<int>, timeToDie: int, target: Option<int>): (v: Verdict)
    requires |elapsed| == |meals|
    ensures v.Death? <==> exists i :: 0 <= i < |elapsed| && elapsed[i] > timeToDie
    ensures v.Death? ==> v.index < |elapsed| && elapsed[v.index] > timeToDie
    ensures v.Death? ==> forall j :: 0 <= j < v.index ==> elapsed[j] <= timeToDie
    ensures v == Success <==>
      target.Some? &&
      (forall i :: 0 <= i < |elapsed| ==> elapsed[i] <= timeToDie) &&
      (forall i :: 0 <= i < |meals| ==> meals[i] >= target.value)
    ensures target.None? ==> v != Success
    ensures |elapsed| == 0 && target.Some? ==> v == Success
  {
    match FirstOverdue(elapsed, timeToDie)
    case Some(i) => Death(i)
    case None => if target.Some? && AllReached(meals, target.value) then Success else Continue
  }

  /** Elapsed times when philosopher i is inspected at clock reading nows[i]. */
  function Elapsed(nows: seq<int>, lasts: seq<int>): (e: seq<int>)
    requires |nows| == |lasts|
    ensures |e| == |lasts|
    ensures forall i :: 0 <= i < |e| ==> e[i] == nows[i] - lasts[i]
  {
    seq(|lasts|, i requires 0 <= i < |lasts| => nows[i] - lasts[i])
  }

  /** Elapsed times when every philosopher is inspected at the same clock reading. */
  function ElapsedAt(now: int, lasts: seq<int>): (e: seq<int>)
    ensures |e| == |lasts|
    ensures forall i :: 0 <= i < |e| ==> e[i] == now - lasts[i]
  {
    seq(|lasts|, i requires 0 <= i < |lasts| => now - lasts[i])
  }
}
