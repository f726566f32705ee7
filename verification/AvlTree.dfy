/** AVL trees as values: height, balance and order. */
module AvlTree {
  import opened Orders

  datatype Tree<K, V> = Nil | Bin(left: Tree<K, V>, key: K, value: V, balance: int, right: Tree<K, V>)

  function Max(x: int, y: int): int {
    if x < y then y else x
  }

  function Height<K, V>(t: Tree<K, V>): nat {
    match t
    case Nil => 0
    case Bin(l, _, _, _, r) => 1 + Max(Height(l), Height(r))
  }

  /** Every node records the height difference of its subtrees, and it is at most one. */
  ghost predicate Balanced<K, V>(t: Tree<K, V>) {
    match t
    case Nil => true
    case Bin(l, _, _, b, r) => b == Height(r) - Height(l) && -1 <= b <= 1 && Balanced(l) && Balanced(r)
  }

  function InOrder<K, V>(t: Tree<K, V>): seq<(K, V)> {
    match t
    case Nil => []
    case Bin(l, k, v, _, r) => InOrder(l) + [(k, v)] + InOrder(r)
  }

  function Size<K, V>(t: Tree<K, V>): nat {
    match t
    case Nil => 0
    case Bin(l, _, _, _, r) => 1 + Size(l) + Size(r)
  }

  lemma {:induction false} SizeIsLength<K, V>(t: Tree<K, V>)
    ensures Size(t) == |InOrder(t)|
  {
    if t.Bin? {
      SizeIsLength(t.left);
      SizeIsLength(t.right);
    }
  }

  // ---------- How high a tree of n nodes can be ----------

  function Fib(n: nat): nat {
    if n < 2 then n else Fib(n - 1) + Fib(n - 2)
  }

  /** A balanced tree of height h has at least Fib(h + 2) - 1 nodes. */
  lemma {:induction false} ManyNodes<K, V>(t: Tree<K, V>)
    requires Balanced(t)
    ensures Size(t) >= Fib(Height(t) + 2) - 1
  {
    if t.Bin? {
      ManyNodes(t.left);
      ManyNodes(t.right);
      FibSum(Height(t), Height(t.left), Height(t.right));
    }
  }

  lemma FibSum(h: nat, h0: nat, h1: nat)
    requires h == 1 + Max(h0, h1) && -1 <= h1 - h0 <= 1
    ensures Fib(h + 2) <= Fib(h0 + 2) + Fib(h1 + 2)
  {
    FibMonotone(h, h0 + 2);
    FibMonotone(h, h1 + 2);
  }

  lemma {:induction false} FibMonotone(m: nat, n: nat)
    requires m <= n
    ensures Fib(m) <= Fib(n)
  {
    if m < n {
      FibMonotone(m, n - 1);
      assert Fib(n - 1) <= Fib(n);
    }
  }

  lemma FibTen(n: nat)
    ensures Fib(n + 10) >= 89 * Fib(n)
  {
    assert Fib(n + 1) >= Fib(n) by {
      FibMonotone(n, n + 1);
    }
    var f, g := Fib(n), Fib(n + 1);
    assert Fib(n + 2) == g + f;
    assert Fib(n + 3) == 2 * g + f;
    assert Fib(n + 4) == 3 * g + 2 * f;
    assert Fib(n + 5) == 5 * g + 3 * f;
    assert Fib(n + 6) == 8 * g + 5 * f;
    assert Fib(n + 7) == 13 * g + 8 * f;
    assert Fib(n + 8) == 21 * g + 13 * f;
    assert Fib(n + 9) == 34 * g + 21 * f;
  }

  /** A tree whose size fits 64 bits is at most 100 nodes high. */
  lemma HeightBound<K, V>(t: Tree<K, V>)
    requires Balanced(t) && Size(t) < 0x1_0000_0000_0000_0000
    ensures Height(t) <= 100
  {
    hide Balanced, Size, Height, Fib;
    if Height(t) > 100 {
      ManyNodes(t);
      var n: nat :| n == 3;
      FibMonotone(n + 100, Height(t) + 2);
      FibHundred(n);
      FibThree(n);
    }
  }

  lemma FibHundred(n: nat)
    ensures Fib(n + 100) >= 31181719929966183601 * Fib(n)
  {
    hide Fib;
    FibTen(n); FibTen(n + 10); FibTen(n + 20); FibTen(n + 30); FibTen(n + 40);
    FibTen(n + 50); FibTen(n + 60); FibTen(n + 70); FibTen(n + 80); FibTen(n + 90);
  }

  lemma FibThree(n: nat)
    requires n == 3
    ensures Fib(n) == 2
  {
  }
}
