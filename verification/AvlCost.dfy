/** Why lookup is logarithmic: an AVL tree of height h cannot have few nodes. */
module AvlCost {
  import opened Arith
  import opened AvlShape

  function Fib(n: nat): nat {
    if n < 2 then n else Fib(n - 1) + Fib(n - 2)
  }

  lemma {:induction false} FibMonotone(a: nat, b: nat)
    requires a <= b
    ensures Fib(a) <= Fib(b)
    decreases b - a
  {
    if a < b { FibMonotone(a + 1, b); }
  }

  lemma FibStep(n: nat)
    ensures Fib(0) == 0 && Fib(1) == 1 && Fib(2) == 1 && Fib(3) == 2
    ensures Fib(n + 2) == Fib(n + 1) + Fib(n)
  {
  }

  /** The height of a balanced tree bounds its size from below. */
  lemma {:induction false} HeightBound(t: Tree)
    requires Balanced(t)
    ensures Fib(Height(t) + 2) <= Size(t) + 1
  {
    hide Fib;
    FibStep(Height(t));
    if t.Node? {
      HeightBound(t.left);
      HeightBound(t.right);
      FibMonotone(Height(t), Height(t.left) + 2);
      FibMonotone(Height(t), Height(t.right) + 2);
    }
  }

  lemma {:induction false} FibDoubles(h: nat)
    ensures Pow2(h / 2) <= Fib(h + 2)
  {
    if h >= 2 {
      FibDoubles(h - 2);
      FibMonotone(h, h + 1);
      assert Fib(h + 2) == Fib(h + 1) + Fib(h);
    }
  }

  /** A search that follows one path makes at most about 1.44 log2(n) comparisons. */
  lemma SearchCost(t: Tree, compares: nat)
    requires Balanced(t) && compares <= Height(t)
    ensures Fib(compares + 2) <= Size(t) + 1 && Pow2(compares / 2) <= Size(t) + 1
  {
    HeightBound(t);
    FibMonotone(compares + 2, Height(t) + 2);
    FibDoubles(compares);
  }
}
