/** The recursive factorial of `debugging/factorial_recursive.py`, defined for
    the non-negative integers its documentation admits. */
module FactorialRecursive {

  /** n! with the base case n == 0 and the step n * (n - 1)!. Every value is
      at least 1, which the recursive call's own contract is needed for. */
  function Factorial(n: nat): (r: nat)
    ensures r >= 1
    decreases n
  {
    if n == 0 then 1 else n * Factorial(n - 1)
  }

  /** The product of the integers lo, lo + 1, ..., hi (1 when the range is empty):
      the docstring's description of n! as "the product of all positive
      integers less than or equal to n". */
  function Product(lo: int, hi: int): (r: int)
    decreases hi - lo
  {
    if hi < lo then 1 else Product(lo, hi - 1) * hi
  }

  /** The recursion computes the product of 1..n. */
  lemma {:induction false} FactorialIsProduct(n: nat)
    ensures Factorial(n) == Product(1, n)
  {
    if n > 0 {
      FactorialIsProduct(n - 1);
    }
  }

  /** The base case and the recurrence, as the function's callers may use them. */
  lemma Recurrence(n: nat)
    ensures n == 0 ==> Factorial(n) == 1
    ensures n > 0 ==> Factorial(n) == n * Factorial(n - 1)
  {
  }

  /** The examples the documentation gives: 0! = 1, 4! = 24, 5! = 120. */
  lemma DocumentedExamples()
    ensures Factorial(0) == 1 && Factorial(4) == 24 && Factorial(5) == 120
  {
  }

  /** n! is at least n. */
  lemma AtLeastArgument(n: nat)
    ensures n <= Factorial(n)
  {
    if n > 0 {
      var f := Factorial(n - 1);
      assert n * f >= n * 1 by { assert n * (f - 1) >= 0; }
    }
  }

  /** n! grows with n. */
  lemma {:induction false} FactorialMonotone(m: nat, n: nat)
    requires m <= n
    ensures Factorial(m) <= Factorial(n)
    decreases n - m
  {
    if m < n {
      FactorialMonotone(m, n - 1);
      var f := Factorial(n - 1);
      assert n * f >= f by { assert (n - 1) * f >= 0; }
    }
  }
}
