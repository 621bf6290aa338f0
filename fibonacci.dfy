/** The Fibonacci helper used by the rope balance criterion. */
module Fibonacci {

  /** The Fibonacci sequence with F(1) = F(2) = 1; every `n <= 2`, including 0, gives 1. */
  function Fib(n: nat): (r: nat)
    ensures r >= 1
  {
    if n <= 2 then 1 else Fib(n - 1) + Fib(n - 2)
  }

  function Pow2(n: nat): (r: nat)
    ensures r >= 1
  {
    if n == 0 then 1 else 2 * Pow2(n - 1)
  }

  /** The iterative computation: `prev_prev` and `prev` walk up the sequence until `cur_num` reaches `num`. */
  method GetFibonacciNumber(num: nat) returns (r: nat)
    ensures r == Fib(num)
    ensures r >= 1
  {
    if num <= 2 {
      return 1;
    }
    var prevPrev: nat := 1;
    var prev: nat := 1;
    var curNum: nat := 3;
    while curNum < num
      invariant 3 <= curNum <= num
      invariant prevPrev == Fib(curNum - 2)
      invariant prev == Fib(curNum - 1)
      decreases num - curNum
    {
      var tmp := prev;
      prev := prev + prevPrev;
      prevPrev := tmp;
      curNum := curNum + 1;
    }
    r := prev + prevPrev;
  }

  /** The sequence never decreases. */
  lemma {:induction false} FibMonotone(m: nat, n: nat)
    requires m <= n
    ensures Fib(m) <= Fib(n)
  {
    if m < n {
      FibMonotone(m, n - 1);
      if n > 2 {
        assert Fib(n) == Fib(n - 1) + Fib(n - 2);
      }
    }
  }

  /** F(k + 2) is at most 2^(k - 1) + 1: the leaf count of a tree built by pairing reaches it. */
  lemma {:induction false} FibBelowPow2(k: nat)
    requires k >= 1
    ensures Fib(k + 2) <= Pow2(k - 1) + 1
  {
    if k == 1 {
      assert Fib(3) == 2;
    } else if k == 2 {
      assert Fib(4) == 3;
    } else {
      FibBelowPow2(k - 1);
      FibBelowPow2(k - 2);
      assert Fib(k + 2) == Fib(k + 1) + Fib(k);
      assert Pow2(k - 1) == 2 * Pow2(k - 2);
      assert Pow2(k - 2) == 2 * Pow2(k - 3);
    }
  }
}
