/** Fibonacci.py: the n-th Fibonacci number, computed bottom-up in a growing list. */
module Fibonacci {
  import opened Wrappers

  /** The recursive definition the tutorial states: F(0) = 0, F(1) = 1,
      F(n) = F(n-1) + F(n-2). */
  ghost function Fib(n: nat): nat
  {
    if n < 2 then n else Fib(n - 1) + Fib(n - 2)
  }

  /** `fibonacci(n)`. The two early returns, then the list `fib`, seeded with
      [0, 1] and extended by one sum per iteration of the `for` loop.
      Python's negative indexing is kept: for n = -1 and n = -2 the loop does
      not run and `fib[n]` reads 1 and 0 from the end of [0, 1]; for any
      smaller n the read raises IndexError, modelled as None. */
  method Fibonacci(n: int) returns (r: Option<nat>)
    ensures n >= 0 ==> r == Some(Fib(n))
    ensures n == -1 ==> r == Some(1)
    ensures n == -2 ==> r == Some(0)
    ensures n < -2 ==> r == None
  {
    if n == 0 {
      return Some(0);
    } else if n == 1 {
      return Some(1);
    }
    var fib: seq<nat> := [0, 1];
    var i := 2;
    while i < n + 1
      invariant n >= 2 ==> 2 <= i <= n + 1
      invariant n < 2 ==> i == 2
      invariant |fib| == i
      invariant forall k :: 0 <= k < i ==> fib[k] == Fib(k)
    {
      fib := fib + [fib[i - 1] + fib[i - 2]];
      i := i + 1;
    }
    if 0 <= n {
      r := Some(fib[n]);
    } else if -|fib| <= n {
      r := Some(fib[|fib| + n]);
    } else {
      r := None;
    }
  }

  /** The values printed by the demonstration block. */
  method FibonacciSamples() returns (tenth: Option<nat>, fourteenth: Option<nat>)
    ensures tenth == Some(55) && fourteenth == Some(377)
  {
    tenth := Fibonacci(10);
    fourteenth := Fibonacci(14);
  }
}
