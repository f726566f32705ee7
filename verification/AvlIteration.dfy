/** In-order iteration over an AVL tree, with an explicit stack of 100 nodes. */
module AvlIteration {
  import opened Basics
  import opened Orders
  import opened AvlTree
  import opened Avl

  const STACK_SIZE := 100

  ghost function Depth<K, V>(s: Shape<K, V>): nat {
    match s
    case Empty => 0
    case At(_, l, r) => 1 + Max(Depth(l), Depth(r))
  }

  lemma {:induction false} DepthIsHeight<K, V>(s: Shape<K, V>)
    ensures Depth(s) == Height(Model(s))
    decreases s
  {
    if s.At? {
      DepthIsHeight(s.left);
      DepthIsHeight(s.right);
    }
  }

  /** The subtree to visit before, and the one to visit after the root of s. */
  ghost function Near<K, V>(dir: int, s: Shape<K, V>): Shape<K, V>
    requires s.At?
  {
    if dir == 0 then s.left else s.right
  }

  ghost function Far<K, V>(dir: int, s: Shape<K, V>): Shape<K, V>
    requires s.At?
  {
    if dir == 0 then s.right else s.left
  }

  /** The nodes of s in the order of a traversal. */
  ghost function InDirection<K, V>(dir: int, s: Shape<K, V>): seq<AvlNode<K, V>>
    decreases s
  {
    if s.Empty? then []
    else InDirection(dir, Near(dir, s)) + [s.node] + InDirection(dir, Far(dir, s))
  }

  /** What the nodes on a stack still have to contribute, from the top of the stack down. */
  ghost function Stacked<K, V>(dir: int, path: seq<Shape<K, V>>): seq<AvlNode<K, V>>
    requires forall s | s in path :: s.At?
  {
    if path == [] then []
    else
      var top := path[|path| - 1];
      [top.node] + InDirection(dir, Far(dir, top)) + Stacked(dir, path[..|path| - 1])
  }

  /** Shape s is linked and lies at least d levels below the root of the whole tree. */
  ghost predicate Within<K, V>(whole: Shape<K, V>, s: Shape<K, V>, d: nat)
    reads Nodes(whole)
  {
    && s.At? && Nodes(s) <= Nodes(whole)
    && Linked(s.node, s) && Depth(s) + d <= Depth(whole)
  }

  /** The stack holds the roots of the shapes in path, each one deeper than the one below. */
  ghost predicate StackOk<K, V>(whole: Shape<K, V>, path: seq<Shape<K, V>>, stack: seq<AvlNode?<K, V>>, stackIndex: nat)
    reads Nodes(whole)
  {
    && Depth(whole) <= STACK_SIZE == |stack| && |path| == stackIndex <= STACK_SIZE
    && (forall s | s in path :: s.At?)
    && (forall i: nat | i < |path| :: Within(whole, path[i], i) && stack[i] == path[i].node)
  }

  lemma Push<K, V>(whole: Shape<K, V>, path: seq<Shape<K, V>>, stack: seq<AvlNode?<K, V>>, stackIndex: nat,
                   s: Shape<K, V>)
    requires StackOk(whole, path, stack, stackIndex) && Within(whole, s, |path|)
    ensures stackIndex < STACK_SIZE
    ensures StackOk(whole, path + [s], stack[stackIndex := s.node], stackIndex + 1)
  {
    hide Within;
    assert Depth(s) >= 1 by {
      DepthOf(whole, s, |path|);
    }
    DepthOf(whole, s, |path|);
    var path', stack' := path + [s], stack[stackIndex := s.node];
    forall i: nat | i < |path'|
      ensures Within(whole, path'[i], i) && stack'[i] == path'[i].node
    {
      if i < |path| {
        assert path'[i] == path[i] && stack'[i] == stack[i];
      }
    }
  }

  lemma DepthOf<K, V>(whole: Shape<K, V>, s: Shape<K, V>, d: nat)
    requires Within(whole, s, d)
    ensures s.At? && Depth(s) >= 1 && Depth(s) + d <= Depth(whole)
  {
  }

  lemma Pop<K, V>(whole: Shape<K, V>, path: seq<Shape<K, V>>, stack: seq<AvlNode?<K, V>>, stackIndex: nat)
    requires StackOk(whole, path, stack, stackIndex) && path != []
    ensures var top := path[|path| - 1];
            && stackIndex > 0 && StackOk(whole, path[..|path| - 1], stack, stackIndex - 1)
            && Within(whole, top, |path| - 1) && top.At? && stack[stackIndex - 1] == top.node
  {
    hide Within;
  }

  /** Both subtrees of a node lie one level deeper. */
  lemma WithinSubtrees<K, V>(whole: Shape<K, V>, s: Shape<K, V>, d: nat, dir: int)
    requires (dir == 0 || dir == 1) && Within(whole, s, d)
    ensures s.At? && |s.node.lr| == 2
    ensures s.node.lr[dir] == null <==> Near(dir, s).Empty?
    ensures s.node.lr[1 - dir] == null <==> Far(dir, s).Empty?
    ensures s.node.lr[dir] != null ==> s.node.lr[dir] == Near(dir, s).node && Within(whole, Near(dir, s), d + 1)
    ensures s.node.lr[1 - dir] != null ==> s.node.lr[1 - dir] == Far(dir, s).node && Within(whole, Far(dir, s), d + 1)
  {
    RootFacts(s.node, s);
    LinkedRoot(s.node.lr[0], s.left);
    LinkedRoot(s.node.lr[1], s.right);
  }

  lemma LinkedRoot<K, V>(p: AvlNode?<K, V>, s: Shape<K, V>)
    requires Linked(p, s)
    ensures p == null <==> s.Empty?
    ensures p != null ==> p == s.node
  {
  }

  class AvlIter<K(!new), V> {
    var key: Option<K>
    var value: Option<V>
    var node: AvlNode?<K, V>
    const stack: array<AvlNode?<K, V>>
    var stackIndex: nat
    var direction: int
    ghost var whole: Shape<K, V>     // the tree being traversed
    ghost var cur: Shape<K, V>       // the subtree whose root is node
    ghost var path: seq<Shape<K, V>> // the subtrees whose roots are on the stack

    ghost predicate Valid()
      reads this, stack, Nodes(whole)
    {
      && (direction == 0 || direction == 1)
      && StackOk(whole, path, stack[..], stackIndex)
      && (node == null ==> path == [])
      && (node != null ==> Within(whole, cur, |path|) && cur.node == node && key == Some(node.key) &&
                           value == Some(node.value))
    }

    /** The nodes not yet passed, the current one first. */
    ghost function Remaining(): seq<AvlNode<K, V>>
      reads this, stack, Nodes(whole)
      requires Valid()
    {
      if node == null then []
      else [cur.node] + InDirection(direction, Far(direction, cur)) + Stacked(direction, path)
    }

    constructor ()
      ensures fresh(stack) && stack.Length == STACK_SIZE
    {
      key, value, node := None, None, null;
      stack := new AvlNode?<K, V>[STACK_SIZE];
      stackIndex := 0;
      whole, cur, path := Empty, Empty, [];
    }

    /** Go to the first node of subtree s in the iteration's direction, stacking the nodes passed. */
    method Descend(n0: AvlNode<K, V>, ghost s: Shape<K, V>)
      requires direction == 0 || direction == 1
      requires StackOk(whole, path, stack[..], stackIndex)
      requires Within(whole, s, |path|) && n0 == s.node
      modifies this`key, this`value, this`node, this`stackIndex, this`cur, this`path, stack
      ensures Valid() && node != null
      ensures Remaining() == InDirection(direction, s) + old(Stacked(direction, path))
    {
      hide Nodes, InDirection, Linked, Within, Depth, Near, Far, StackOk, Stacked;
      StackFacts(whole, path, stack[..], stackIndex);
      var n := n0;
      assert forall o | o in Nodes(whole) :: o as object != this;
      cur := s;
      assert Within(whole, s, |path|);
      WithinSubtrees(whole, cur, |path|, direction);
      ghost var all := InDirection(direction, s) + Stacked(direction, path);
      while n.lr[direction] != null
        invariant StackOk(whole, path, stack[..], stackIndex) && |path| == stackIndex && stack.Length == STACK_SIZE
        invariant forall p | p in path :: p.At?
        invariant Within(whole, cur, |path|) && cur.At? && n == cur.node && |n.lr| == 2
        invariant InDirection(direction, cur) + Stacked(direction, path) == all
        decreases cur
      {
        WithinSubtrees(whole, cur, |path|, direction);
        Push(whole, path, stack[..], stackIndex, cur);
        PushFacts(direction, cur, path);
        NearSmaller(direction, cur);
        ghost var pushed := stack[..][stackIndex := n];
        stack[stackIndex] := n;
        assert stack[..] == pushed;
        stackIndex := stackIndex + 1;
        n := n.lr[direction];
        path := path + [cur];
        cur := Near(direction, cur);
        WithinSubtrees(whole, cur, |path|, direction);
      }
      WithinSubtrees(whole, cur, |path|, direction);
      LeftmostFacts(direction, cur, Stacked(direction, path));
      node := n;
      key := Some(n.key);
      value := Some(n.value);
    }

    /** Start a traversal of the tree, in order or in reverse order. */
    method Begin(avl: AVL<K, V>, dir: int)
      requires dir == 0 || dir == 1
      requires avl.Valid() && avl.count < 0x1_0000_0000_0000_0000
      requires stack.Length == STACK_SIZE
      modifies this, stack
      ensures Valid() && whole == avl.shape
      ensures Remaining() == InDirection(dir, avl.shape) && direction == dir
    {
      hide Nodes, InDirection, Linked, Within, Depth, Balanced;
      hide TotalPreorder, Ascending, InOrder, Model, Height, Near, Far;
      var n := avl.root;
      assert forall o | o in Nodes(avl.shape) :: o as object != this;
      stackIndex, direction := 0, dir;
      whole, cur, path := avl.shape, avl.shape, [];
      ShallowEnough(avl);
      LinkedRoot(n, whole);
      if n == null {
        key, value, node := None, None, null;
        NothingLeft<K, V>(dir);
        return;
      }
      WithinWhole(whole);
      Descend(n, whole);
    }

    /** Go to the next node, if there is one. */
    method Next()
      requires Valid()
      modifies this`key, this`value, this`node, this`stackIndex, this`cur, this`path, stack
      ensures Valid()
      ensures Remaining() == if old(Remaining()) == [] then [] else old(Remaining())[1..]
    {
      hide Nodes, InDirection, Linked, Within, Depth, Near, Far, Stacked, StackOk;
      if node == null {
        return;
      }
      var n: AvlNode<K, V> := node;
      var dir := direction;
      StackFacts(whole, path, stack[..], stackIndex);
      assert forall o | o in Nodes(whole) :: o as object != this;
      WithinSubtrees(whole, cur, |path|, dir);
      ghost var rest := InDirection(dir, Far(dir, cur)) + Stacked(dir, path);
      assert Remaining() == [n] + rest;
      var next := n.lr[1 - dir];
      if next != null {
        assert Within(whole, Far(dir, cur), |path|) by {
          Weaken(whole, Far(dir, cur), |path|);
        }
        Descend(next, Far(dir, cur));
      } else {
        NothingLeft<K, V>(dir);
        assert rest == Stacked(dir, path);
        if stackIndex > 0 {
          Pop(whole, path, stack[..], stackIndex);
          TopFirst(dir, path);
          stackIndex := stackIndex - 1;
          cur, path := path[|path| - 1], path[..|path| - 1];
          var m: AvlNode<K, V> := stack[stackIndex];
          assert m == cur.node;
          assert forall t | t in path :: t.At? by {
            StackFacts(whole, path, stack[..], stackIndex);
          }
          node := m;
          key := Some(m.key);
          value := Some(m.value);
        } else {
          key, value, node := None, None, null;
        }
      }
    }
  }

  lemma TopFirst<K, V>(dir: int, path: seq<Shape<K, V>>)
    requires path != [] && forall s | s in path :: s.At?
    ensures var top := path[|path| - 1];
            Stacked(dir, path) == [top.node] + InDirection(dir, Far(dir, top)) + Stacked(dir, path[..|path| - 1])
  {
  }

  lemma StackFacts<K, V>(whole: Shape<K, V>, path: seq<Shape<K, V>>, stack: seq<AvlNode?<K, V>>, stackIndex: nat)
    requires StackOk(whole, path, stack, stackIndex)
    ensures |path| == stackIndex <= STACK_SIZE == |stack|
    ensures forall s | s in path :: s.At?
    ensures path == [] ==> Stacked(0, path) == [] == Stacked(1, path)
  {
  }

  lemma NothingLeft<K, V>(dir: int)
    ensures InDirection<K, V>(dir, Empty) == []
  {
  }

  lemma Weaken<K, V>(whole: Shape<K, V>, s: Shape<K, V>, d: nat)
    requires Within(whole, s, d + 1)
    ensures Within(whole, s, d)
  {
  }

  lemma WithinWhole<K, V>(s: Shape<K, V>)
    requires s.At? && Linked(s.node, s)
    ensures Within(s, s, 0)
  {
  }

  lemma ShallowEnough<K(!new), V>(avl: AVL<K, V>)
    requires avl.Valid() && avl.count < 0x1_0000_0000_0000_0000
    ensures Depth(avl.shape) <= STACK_SIZE
  {
    hide Linked, Balanced, Ascending, InOrder, Model, TotalPreorder, Depth;
    DepthIsHeight(avl.shape);
    SizeIsLength(Model(avl.shape));
    HeightBound(Model(avl.shape));
  }

  // ---------- What a traversal visits ----------

  function Reversed<T>(s: seq<T>): seq<T> {
    if s == [] then [] else Reversed(s[1..]) + [s[0]]
  }

  ghost function Pairs<K, V>(nodes: seq<AvlNode<K, V>>): seq<(K, V)>
    reads nodes
  {
    if nodes == [] then [] else [(nodes[0].key, nodes[0].value)] + Pairs(nodes[1..])
  }

  lemma {:induction false} PairsJoin<K, V>(a: seq<AvlNode<K, V>>, b: seq<AvlNode<K, V>>)
    ensures Pairs(a + b) == Pairs(a) + Pairs(b)
  {
    if a == [] {
      assert a + b == b;
    } else {
      assert (a + b)[1..] == a[1..] + b;
      PairsJoin(a[1..], b);
    }
  }

  lemma {:induction false} ReversedJoin<T>(a: seq<T>, b: seq<T>)
    ensures Reversed(a + b) == Reversed(b) + Reversed(a)
  {
    if a == [] {
      assert a + b == b;
    } else {
      assert (a + b)[1..] == a[1..] + b;
      ReversedJoin(a[1..], b);
    }
  }

  /** A traversal meets the pairs of the tree in key order, or in the reverse order. */
  lemma {:induction false} TraversalOrder<K, V>(dir: int, s: Shape<K, V>)
    ensures Pairs(InDirection(dir, s)) ==
            if dir == 0 then InOrder(Model(s)) else Reversed(InOrder(Model(s)))
    decreases s
  {
    hide Pairs, Reversed;
    if s.Empty? {
      NoPairs<K, V>();
      ReversedSmall<(K, V)>();
    } else {
      var near, far, x := Near(dir, s), Far(dir, s), s.node;
      var m := (x.key, x.value);
      TraversalOrder(dir, near);
      TraversalOrder(dir, far);
      PairsMiddle(InDirection(dir, near), x, InDirection(dir, far));
      ReversedMiddle(InOrder(Model(s.left)), m, InOrder(Model(s.right)));
    }
  }

  lemma ReversedSmall<T>()
    ensures Reversed<T>([]) == []
  {
  }

  lemma PairsMiddle<K, V>(a: seq<AvlNode<K, V>>, x: AvlNode<K, V>, b: seq<AvlNode<K, V>>)
    ensures Pairs(a + [x] + b) == Pairs(a) + [(x.key, x.value)] + Pairs(b)
  {
    PairsJoin(a + [x], b);
    PairsJoin(a, [x]);
    assert Pairs([x]) == [(x.key, x.value)];
  }

  lemma ReversedMiddle<T>(a: seq<T>, x: T, b: seq<T>)
    ensures Reversed(a + [x] + b) == Reversed(b) + [x] + Reversed(a)
  {
    ReversedJoin(a + [x], b);
    ReversedJoin(a, [x]);
    assert Reversed([x]) == [x];
    assert Reversed(b) + ([x] + Reversed(a)) == Reversed(b) + [x] + Reversed(a);
  }

  lemma PairsFirst<K, V>(nodes: seq<AvlNode<K, V>>)
    requires nodes != []
    ensures Pairs(nodes) == [(nodes[0].key, nodes[0].value)] + Pairs(nodes[1..])
  {
  }

  lemma NoPairs<K, V>()
    ensures Pairs<K, V>([]) == []
  {
  }

  lemma MovePair<T>(done: seq<T>, x: T, rest: seq<T>)
    ensures done + ([x] + rest) == done + [x] + rest
  {
  }

  /** Visit the whole tree: each pair once, keys ascending, or descending. */
  method Traverse<K(!new), V>(avl: AVL<K, V>, direction: int) returns (visited: seq<(K, V)>)
    requires direction == 0 || direction == 1
    requires avl.Valid() && avl.count < 0x1_0000_0000_0000_0000
    ensures visited == if direction == 0 then avl.Contents() else Reversed(avl.Contents())
  {
    hide Nodes, InDirection, Linked, Within, Depth, Balanced, TotalPreorder, Ascending;
    hide InOrder, Model, Near, Far, Stacked, StackOk, Pairs, Reversed;
    assert allocated(Nodes(avl.shape));
    var iter := new AvlIter<K, V>();
    iter.Begin(avl, direction);
    visited := [];
    ghost var all := Pairs(iter.Remaining());
    assert [] + all == all;
    TraversalOrder(direction, avl.shape);
    assert all == if direction == 0 then old(avl.Contents()) else Reversed(old(avl.Contents()));
    while iter.node != null
      invariant iter.Valid() && fresh(iter) && fresh(iter.stack)
      invariant iter.whole == avl.shape
      invariant visited + Pairs(iter.Remaining()) == all
      decreases |iter.Remaining()|
    {
      ghost var left := iter.Remaining();
      PairsFirst(left);
      MovePair(visited, (left[0].key, left[0].value), Pairs(left[1..]));
      visited := visited + [(iter.key.value, iter.value.value)];
      iter.Next();
    }
    NoPairs<K, V>();
    assert iter.Remaining() == [] && visited == visited + Pairs(iter.Remaining());
  }

  lemma NearSmaller<K, V>(dir: int, s: Shape<K, V>)
    requires s.At?
    ensures Near(dir, s) < s
  {
  }

  lemma PushFacts<K, V>(dir: int, s: Shape<K, V>, path: seq<Shape<K, V>>)
    requires s.At? && forall p | p in path :: p.At?
    ensures InDirection(dir, s) + Stacked(dir, path) == InDirection(dir, Near(dir, s)) + Stacked(dir, path + [s])
  {
    assert (path + [s])[..|path|] == path;
    assert InDirection(dir, s) == InDirection(dir, Near(dir, s)) + [s.node] + InDirection(dir, Far(dir, s));
  }

  lemma LeftmostFacts<K, V>(dir: int, s: Shape<K, V>, rest: seq<AvlNode<K, V>>)
    requires s.At? && Near(dir, s).Empty?
    ensures InDirection(dir, s) + rest == [s.node] + InDirection(dir, Far(dir, s)) + rest
  {
  }
}
