/** Small value types shared by both simulations. */
module Common {

  datatype Option<T> = None | Some(value: T)

  datatype Result<T, E> = Ok(value: T) | Err(error: E)

  /** One semaphore operation of a philosopher on a fork, named by the fork's index. */
  datatype Action = Take(fork: nat) | Put(fork: nat)

  /** Every fork the trace takes is released exactly as often as it is taken. */
  ghost predicate Balanced(trace: seq<Action>)
  {
    forall x: nat :: multiset(trace)[Take(x)] == multiset(trace)[Put(x)]
  }

  /** Two balanced traces, one after the other, are balanced. */
  lemma BalancedConcat(a: seq<Action>, b: seq<Action>)
    requires Balanced(a) && Balanced(b)
    ensures Balanced(a + b)
  {
    assert multiset(a + b) == multiset(a) + multiset(b);
  }

  /** k copies of a block of actions, one after another. */
  function Repeat(k: nat, block: seq<Action>): seq<Action>
  {
    if k == 0 then [] else Repeat(k - 1, block) + block
  }

  /** Repeating a balanced block any number of times stays balanced. */
  lemma {:induction false} RepeatBalanced(k: nat, block: seq<Action>)
    requires Balanced(block)
    ensures Balanced(Repeat(k, block))
  {
    if k > 0 {
      RepeatBalanced(k - 1, block);
      BalancedConcat(Repeat(k - 1, block), block);
    }
  }

  /** Taking a fork and putting it back is balanced. */
  lemma TakePutBalanced(x: nat)
    ensures Balanced([Take(x), Put(x)])
  {
    assert multiset([Take(x), Put(x)]) == multiset{Take(x), Put(x)};
  }

  /** A trace that takes and puts back each of two forks once, in any order, is balanced. */
  lemma TwoForkCycleBalanced(c: seq<Action>, f: nat, s: nat)
    requires multiset(c) == multiset([Take(f), Put(f)] + [Take(s), Put(s)])
    ensures Balanced(c)
  {
    TakePutBalanced(f);
    TakePutBalanced(s);
    BalancedConcat([Take(f), Put(f)], [Take(s), Put(s)]);
  }

  /** A balanced trace followed by one that takes fork x more often than it puts it back is not balanced. */
  lemma OpenTakeUnbalanced(a: seq<Action>, b: seq<Action>, x: nat)
    requires Balanced(a) && multiset(b)[Take(x)] > multiset(b)[Put(x)]
    ensures !Balanced(a + b)
  {
    assert multiset(a + b) == multiset(a) + multiset(b);
  }

  /** Repeating a block that takes and puts back each of two forks once is balanced. */
  lemma RepeatTwoFork(k: nat, c: seq<Action>, f: nat, s: nat)
    requires multiset(c) == multiset([Take(f), Put(f)] + [Take(s), Put(s)])
    ensures Balanced(Repeat(k, c))
  {
    TwoForkCycleBalanced(c, f, s);
    RepeatBalanced(k, c);
  }
}
