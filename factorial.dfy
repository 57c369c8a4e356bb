/** The factorial of `debugging/factorial.py`, which accepts every integer and
    answers 1 for every n <= 1, negative numbers included. */
module Factorial {
  import FactorialRecursive

  /** 1 when n <= 1, otherwise (n - 1)! * n. The recursion stops for every
      integer and every value is at least 1. */
  function Factorial(n: int): (r: int)
    ensures r >= 1
    decreases if n <= 1 then 0 else n
  {
    if n <= 1 then 1 else Factorial(n - 1) * n
  }

  /** Every n <= 1, including the negative ones, has factorial 1. */
  lemma AtMostOne(n: int)
    requires n <= 1
    ensures Factorial(n) == 1
  {
  }

  /** The recurrence for n > 1. */
  lemma Recurrence(n: int)
    requires n > 1
    ensures Factorial(n) == Factorial(n - 1) * n
  {
  }

  /** On the naturals the two factorial scripts compute the same function,
      although this one stops at n <= 1 and the other at n == 0. */
  lemma {:induction false} AgreesWithRecursive(n: nat)
    ensures Factorial(n) == FactorialRecursive.Factorial(n)
  {
    if n > 1 {
      AgreesWithRecursive(n - 1);
    }
  }
}
