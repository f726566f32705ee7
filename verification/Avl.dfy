/** The AVL tree as linked, mutable nodes.  A method that the program gives a pointer to a link
takes the node there and returns the node that takes its place.

A Shape says which nodes form a subtree and how; it is known to proofs only. */
module Avl {
  import opened Basics
  import opened Orders
  import opened AvlTree

  class AvlNode<K, V> {
    var key: K
    var value: V
    var lr: seq<AvlNode?<K, V>>  // the two links
    var balance: int

    constructor (key: K, value: V)
      ensures this.key == key && this.value == value && lr == [null, null] && balance == 0
    {
      this.key := key;
      this.value := value;
      lr := [null, null];
      balance := 0;
    }
  }

  datatype Shape<K, V> = Empty | At(node: AvlNode<K, V>, left: Shape<K, V>, right: Shape<K, V>)

  ghost function Nodes<K, V>(s: Shape<K, V>): set<AvlNode<K, V>> {
    match s
    case Empty => {}
    case At(n, l, r) => Nodes(l) + {n} + Nodes(r)
  }

  /** The links below p have shape s, and no node occurs twice. */
  ghost predicate Linked<K, V>(p: AvlNode?<K, V>, s: Shape<K, V>)
    reads Nodes(s)
  {
    match s
    case Empty => p == null
    case At(n, l, r) =>
      && p == n && |n.lr| == 2
      && Linked(n.lr[0], l) && Linked(n.lr[1], r)
      && n !in Nodes(l) && n !in Nodes(r) && Nodes(l) !! Nodes(r)
  }

  /** The tree that the nodes of s hold. */
  ghost function Model<K, V>(s: Shape<K, V>): Tree<K, V>
    reads Nodes(s)
  {
    match s
    case Empty => Nil
    case At(n, l, r) => Bin(Model(l), n.key, n.value, n.balance, Model(r))
  }

  function Bal(side: int): int { if side == 0 then -1 else 1 }

  function Side(bal: int): int { if bal == 1 then 1 else 0 }

  function Sign(cmp: int): int { if cmp < 0 then -1 else if cmp == 0 then 0 else 1 }

  // ---------- Rebalancing ----------

  /** A tree whose subtrees are balanced and whose root may be out of balance by two. */
  ghost predicate Lopsided<K, V>(t: Tree<K, V>, difference: int) {
    && t.Bin? && Balanced(t.left) && Balanced(t.right)
    && Height(t.right) - Height(t.left) == difference && -2 <= difference <= 2
  }

  /** What rebalancing makes of a lopsided tree: the same pairs, balanced; a rotation makes the
      tree lower exactly if it leaves the root in balance. */
  ghost predicate Restored<K, V>(t: Tree<K, V>, difference: int, t': Tree<K, V>) {
    && t.Bin? && t'.Bin?
    && Balanced(t') && InOrder(t') == InOrder(t)
    && (-1 <= difference <= 1 ==> Height(t') == Height(t) && t'.balance == difference)
    && (difference == 2 || difference == -2 ==> Height(t') == Height(t) - if t'.balance == 0 then 1 else 0)
  }

  /** A shape with x on the given side of n and y on the other. */
  ghost function Join<K, V>(side: int, n: AvlNode<K, V>, x: Shape<K, V>, y: Shape<K, V>): Shape<K, V> {
    if side == 0 then At(n, x, y) else At(n, y, x)
  }

  ghost function JoinTree<K, V>(side: int, x: Tree<K, V>, k: K, v: V, b: int, y: Tree<K, V>): Tree<K, V> {
    if side == 0 then Bin(x, k, v, b, y) else Bin(y, k, v, b, x)
  }

  lemma JoinFacts<K, V>(side: int, n: AvlNode<K, V>, x: Shape<K, V>, y: Shape<K, V>)
    requires side == 0 || side == 1
    ensures Nodes(Join(side, n, x, y)) == Nodes(x) + {n} + Nodes(y)
    ensures Linked(n, Join(side, n, x, y)) <==>
            && |n.lr| == 2 && Linked(n.lr[side], x) && Linked(n.lr[1 - side], y)
            && n !in Nodes(x) && n !in Nodes(y) && Nodes(x) !! Nodes(y)
    ensures Model(Join(side, n, x, y)) == JoinTree(side, Model(x), n.key, n.value, n.balance, Model(y))
  {
  }

  lemma JoinHeights<K, V>(side: int, x: Tree<K, V>, k: K, v: V, b: int, y: Tree<K, V>)
    requires side == 0 || side == 1
    ensures Height(JoinTree(side, x, k, v, b, y)) == 1 + Max(Height(x), Height(y))
    ensures Balanced(JoinTree(side, x, k, v, b, y)) ==>
              -1 <= b <= 1 && b == if side == 0 then Height(y) - Height(x) else Height(x) - Height(y)
  {
  }

  lemma JoinTreeFacts<K, V>(side: int, x: Tree<K, V>, k: K, v: V, b: int, y: Tree<K, V>)
    requires side == 0 || side == 1
    ensures var t := JoinTree(side, x, k, v, b, y);
            && t.Bin? && t.balance == b && Height(t) == 1 + Max(Height(x), Height(y))
            && (Balanced(t) <==> Balanced(x) && Balanced(y) && -1 <= b <= 1 &&
                                 b == if side == 0 then Height(y) - Height(x) else Height(x) - Height(y))
            && (forall d :: Lopsided(t, d) <==> Balanced(x) && Balanced(y) && -2 <= d <= 2 &&
                                                d == if side == 0 then Height(y) - Height(x) else Height(x) - Height(y))
            && InOrder(t) == (if side == 0 then InOrder(x) + [(k, v)] + InOrder(y)
                               else InOrder(y) + [(k, v)] + InOrder(x))
  {
  }

  lemma SingleRestores<K, V>(side: int, c1: Tree<K, V>, ck: K, cv: V, cb: int, c2: Tree<K, V>,
                             k: K, v: V, b: int, other: Tree<K, V>)
    requires side == 0 || side == 1
    requires Lopsided(JoinTree(side, JoinTree(side, c1, ck, cv, cb, c2), k, v, b, other), 2 * Bal(side))
    requires cb != -Bal(side)
    ensures Restored(JoinTree(side, JoinTree(side, c1, ck, cv, cb, c2), k, v, b, other), 2 * Bal(side),
                     JoinTree(side, c1, ck, cv, cb - Bal(side), JoinTree(side, c2, k, v, -(cb - Bal(side)), other)))
  {
    hide JoinTree, Lopsided, Balanced, InOrder, Height;
    JoinTreeFacts(side, c1, ck, cv, cb, c2);
    JoinTreeFacts(side, JoinTree(side, c1, ck, cv, cb, c2), k, v, b, other);
    JoinTreeFacts(side, c2, k, v, -(cb - Bal(side)), other);
    JoinTreeFacts(side, c1, ck, cv, cb - Bal(side), JoinTree(side, c2, k, v, -(cb - Bal(side)), other));
    if side == 0 {
      Reassociate(InOrder(c1), (ck, cv), InOrder(c2), (k, v), InOrder(other));
    } else {
      Reassociate(InOrder(other), (k, v), InOrder(c2), (ck, cv), InOrder(c1));
    }
  }

  lemma Reassociate<T>(a: seq<T>, x: T, b: seq<T>, y: T, c: seq<T>)
    ensures (a + [x] + b) + [y] + c == a + [x] + (b + [y] + c)
  {
  }

  lemma DoubleRestores<K, V>(side: int, c1: Tree<K, V>, ck: K, cv: V, cb: int,
                             g1: Tree<K, V>, gk: K, gv: V, gb: int, g2: Tree<K, V>,
                             k: K, v: V, b: int, other: Tree<K, V>, cb': int, b': int)
    requires side == 0 || side == 1
    requires Lopsided(JoinTree(side, JoinTree(side, c1, ck, cv, cb, JoinTree(side, g1, gk, gv, gb, g2)), k, v, b,
                               other),
                      2 * Bal(side))
    requires cb == -Bal(side)
    requires b' == if gb == Bal(side) then -Bal(side) else 0
    requires cb' == if gb == -Bal(side) then Bal(side) else 0
    ensures Restored(JoinTree(side, JoinTree(side, c1, ck, cv, cb, JoinTree(side, g1, gk, gv, gb, g2)), k, v, b, other),
                     2 * Bal(side),
                     JoinTree(side, JoinTree(side, c1, ck, cv, cb', g1), gk, gv, 0,
                              JoinTree(side, g2, k, v, b', other)))
  {
    hide JoinTree, Lopsided, Balanced, InOrder, Height;
    var g := JoinTree(side, g1, gk, gv, gb, g2);
    var c := JoinTree(side, c1, ck, cv, cb, g);
    var c', n' := JoinTree(side, c1, ck, cv, cb', g1), JoinTree(side, g2, k, v, b', other);
    JoinTreeFacts(side, g1, gk, gv, gb, g2);
    JoinTreeFacts(side, c1, ck, cv, cb, g);
    JoinTreeFacts(side, c, k, v, b, other);
    JoinTreeFacts(side, c1, ck, cv, cb', g1);
    JoinTreeFacts(side, g2, k, v, b', other);
    JoinTreeFacts(side, c', gk, gv, 0, n');
    if side == 0 {
      Reassociate(InOrder(c1), (ck, cv), InOrder(g1), (gk, gv), InOrder(g2));
      Reassociate(InOrder(c'), (gk, gv), InOrder(g2), (k, v), InOrder(other));
    } else {
      Reassociate(InOrder(g2), (gk, gv), InOrder(g1), (ck, cv), InOrder(c1));
      Reassociate(InOrder(other), (k, v), InOrder(g2), (gk, gv), InOrder(c'));
    }
  }

  /** Left-left or right-right. */
  method RotateSingle<K, V>(node: AvlNode<K, V>, child: AvlNode<K, V>, side: int,
                            ghost c1: Shape<K, V>, ghost c2: Shape<K, V>, ghost other: Shape<K, V>)
    requires side == 0 || side == 1
    requires Linked(node, Join(side, node, Join(side, child, c1, c2), other))
    modifies node, child
    ensures Linked(child, Join(side, child, c1, Join(side, node, c2, other)))
    ensures Model(Join(side, child, c1, Join(side, node, c2, other))) ==
            old(JoinTree(side, Model(c1), child.key, child.value, child.balance - Bal(side),
                         JoinTree(side, Model(c2), node.key, node.value, -(child.balance - Bal(side)), Model(other))))
  {
    hide Linked, Model, Nodes, Join, JoinTree;
    JoinFacts(side, node, Join(side, child, c1, c2), other);
    JoinFacts(side, child, c1, c2);
    LinkedTo(node.lr[side], Join(side, child, c1, c2), child, side, c1, c2);
    var opposite, bal := 1 - side, Bal(side);
    node.lr := node.lr[side := child.lr[opposite]];
    child.lr := child.lr[opposite := node];
    child.balance := child.balance - bal;
    node.balance := -child.balance;
    JoinFacts(side, node, c2, other);
    JoinFacts(side, child, c1, Join(side, node, c2, other));
  }

  /** Left-right or right-left. */
  method RotateDouble<K, V>(node: AvlNode<K, V>, child: AvlNode<K, V>, grandchild: AvlNode<K, V>, side: int,
                            ghost c1: Shape<K, V>, ghost g1: Shape<K, V>, ghost g2: Shape<K, V>,
                            ghost other: Shape<K, V>)
    requires side == 0 || side == 1
    requires Linked(node, Join(side, node, Join(side, child, c1, Join(side, grandchild, g1, g2)), other))
    modifies node, child, grandchild
    ensures Linked(grandchild, Join(side, grandchild, Join(side, child, c1, g1), Join(side, node, g2, other)))
    ensures Model(Join(side, grandchild, Join(side, child, c1, g1), Join(side, node, g2, other))) ==
            old(JoinTree(side,
                         JoinTree(side, Model(c1), child.key, child.value,
                                  if grandchild.balance == -Bal(side) then Bal(side) else 0, Model(g1)),
                         grandchild.key, grandchild.value, 0,
                         JoinTree(side, Model(g2), node.key, node.value,
                                  if grandchild.balance == Bal(side) then -Bal(side) else 0, Model(other))))
  {
    hide Linked, Model, Nodes, Join, JoinTree, Apart;
    var bal := Bal(side);
    DoubleBefore(node, child, grandchild, side, c1, g1, g2, other);
    RelinkDouble(node, child, grandchild, side, c1, g1, g2, other);
    node.balance := if grandchild.balance == bal then -bal else 0;
    child.balance := if grandchild.balance == -bal then bal else 0;
    grandchild.balance := 0;
    assert Linked(node.lr[side], g2) && Linked(node.lr[1 - side], other);
    assert Linked(child.lr[side], c1) && Linked(child.lr[1 - side], g1);
    assert Model(c1) == old(Model(c1)) && Model(g1) == old(Model(g1));
    assert Model(g2) == old(Model(g2)) && Model(other) == old(Model(other));
    DoubleAfter(node, child, grandchild, side, c1, g1, g2, other);
  }

  method RelinkDouble<K, V>(node: AvlNode<K, V>, child: AvlNode<K, V>, grandchild: AvlNode<K, V>, side: int,
                            ghost c1: Shape<K, V>, ghost g1: Shape<K, V>, ghost g2: Shape<K, V>,
                            ghost other: Shape<K, V>)
    requires side == 0 || side == 1
    requires Apart(node, child, grandchild, c1, g1, g2, other)
    requires |node.lr| == 2 && |child.lr| == 2 && |grandchild.lr| == 2
    requires Linked(node.lr[1 - side], other) && Linked(child.lr[side], c1)
    requires Linked(grandchild.lr[side], g1) && Linked(grandchild.lr[1 - side], g2)
    modifies node`lr, child`lr, grandchild`lr
    ensures |node.lr| == 2 && |child.lr| == 2 && |grandchild.lr| == 2
    ensures grandchild.lr[side] == child && grandchild.lr[1 - side] == node
    ensures Linked(node.lr[side], g2) && Linked(node.lr[1 - side], other)
    ensures Linked(child.lr[side], c1) && Linked(child.lr[1 - side], g1)
    ensures Model(c1) == old(Model(c1)) && Model(g1) == old(Model(g1))
    ensures Model(g2) == old(Model(g2)) && Model(other) == old(Model(other))
  {
    hide Linked, Model, Nodes;
    var opposite := 1 - side;
    node.lr := node.lr[side := grandchild.lr[opposite]];
    child.lr := child.lr[opposite := grandchild.lr[side]];
    grandchild.lr := grandchild.lr[side := child][opposite := node];
  }

  /** Three nodes and four shapes that have no node in common. */
  ghost predicate Apart<K, V>(node: AvlNode<K, V>, child: AvlNode<K, V>, grandchild: AvlNode<K, V>,
                              c1: Shape<K, V>, g1: Shape<K, V>, g2: Shape<K, V>, other: Shape<K, V>) {
    && node != child && node != grandchild && child != grandchild
    && {node, child, grandchild} !! Nodes(c1) !! Nodes(g1) !! Nodes(g2) !! Nodes(other)
  }

  lemma DoubleBefore<K, V>(node: AvlNode<K, V>, child: AvlNode<K, V>, grandchild: AvlNode<K, V>, side: int,
                           c1: Shape<K, V>, g1: Shape<K, V>, g2: Shape<K, V>, other: Shape<K, V>)
    requires side == 0 || side == 1
    requires Linked(node, Join(side, node, Join(side, child, c1, Join(side, grandchild, g1, g2)), other))
    ensures node != child && node != grandchild && child != grandchild
    ensures {node, child, grandchild} !! Nodes(c1) && {node, child, grandchild} !! Nodes(g1)
    ensures {node, child, grandchild} !! Nodes(g2) && {node, child, grandchild} !! Nodes(other)
    ensures Apart(node, child, grandchild, c1, g1, g2, other)
    ensures |node.lr| == 2 && |child.lr| == 2 && |grandchild.lr| == 2
    ensures node.lr[side] == child && child.lr[1 - side] == grandchild
    ensures Linked(node.lr[1 - side], other) && Linked(child.lr[side], c1)
    ensures Linked(grandchild.lr[side], g1) && Linked(grandchild.lr[1 - side], g2)
  {
    hide Linked, Model, Nodes, Join, JoinTree;
    var gs := Join(side, grandchild, g1, g2);
    JoinFacts(side, node, Join(side, child, c1, gs), other);
    JoinFacts(side, child, c1, gs);
    JoinFacts(side, grandchild, g1, g2);
    LinkedTo(node.lr[side], Join(side, child, c1, gs), child, side, c1, gs);
    LinkedTo(child.lr[1 - side], gs, grandchild, side, g1, g2);
  }

  lemma DoubleAfter<K, V>(node: AvlNode<K, V>, child: AvlNode<K, V>, grandchild: AvlNode<K, V>, side: int,
                          c1: Shape<K, V>, g1: Shape<K, V>, g2: Shape<K, V>, other: Shape<K, V>)
    requires side == 0 || side == 1
    requires Apart(node, child, grandchild, c1, g1, g2, other)
    requires |node.lr| == 2 && |child.lr| == 2 && |grandchild.lr| == 2
    requires grandchild.lr[side] == child && grandchild.lr[1 - side] == node
    requires Linked(node.lr[side], g2) && Linked(node.lr[1 - side], other)
    requires Linked(child.lr[side], c1) && Linked(child.lr[1 - side], g1)
    ensures Linked(grandchild, Join(side, grandchild, Join(side, child, c1, g1), Join(side, node, g2, other)))
    ensures Model(Join(side, grandchild, Join(side, child, c1, g1), Join(side, node, g2, other))) ==
            JoinTree(side, JoinTree(side, Model(c1), child.key, child.value, child.balance, Model(g1)),
                     grandchild.key, grandchild.value, grandchild.balance,
                     JoinTree(side, Model(g2), node.key, node.value, node.balance, Model(other)))
  {
    hide Linked, Model, Nodes, Join, JoinTree;
    JoinFacts(side, child, c1, g1);
    JoinFacts(side, node, g2, other);
    JoinFacts(side, grandchild, Join(side, child, c1, g1), Join(side, node, g2, other));
  }

  lemma LinkedTo<K, V>(p: AvlNode?<K, V>, s: Shape<K, V>, n: AvlNode<K, V>, side: int, x: Shape<K, V>, y: Shape<K, V>)
    requires Linked(p, s) && s == Join(side, n, x, y)
    ensures p == n
  {
  }

  /** Rotate at a node that is out of balance by two towards the given side. */
  method Balance<K, V>(node: AvlNode<K, V>, side: int, ghost x: Shape<K, V>, ghost other: Shape<K, V>)
    returns (p: AvlNode<K, V>, ghost s: Shape<K, V>)
    requires side == 0 || side == 1
    requires Linked(node, Join(side, node, x, other)) && Lopsided(Model(Join(side, node, x, other)), 2 * Bal(side))
    modifies Nodes(Join(side, node, x, other))
    ensures Linked(p, s) && Nodes(s) == Nodes(Join(side, node, x, other))
    ensures Restored(old(Model(Join(side, node, x, other))), 2 * Bal(side), Model(s))
  {
    hide Linked, Model, Nodes, Join, JoinTree, Lopsided, Restored;
    ghost var c1, c2 := HeavyChild(node, side, x, other);
    var child := node.lr[side];
    var opposite, bal := 1 - side, Bal(side);
    if child.balance != -bal {
      SingleRestores(side, Model(c1), child.key, child.value, child.balance, Model(c2),
                     node.key, node.value, node.balance, Model(other));
      SingleNodes(side, node, child, c1, c2, other);
      RotateSingle(node, child, side, c1, c2, other);
      p, s := child, Join(side, child, c1, Join(side, node, c2, other));
    } else {
      ghost var g1, g2 := InnerChild(node, child, side, c1, c2, other);
      var grandchild := child.lr[opposite];
      DoubleRestores(side, Model(c1), child.key, child.value, child.balance,
                     Model(g1), grandchild.key, grandchild.value, grandchild.balance, Model(g2),
                     node.key, node.value, node.balance, Model(other),
                     if grandchild.balance == -bal then bal else 0, if grandchild.balance == bal then -bal else 0);
      DoubleNodes(side, node, child, grandchild, c1, g1, g2, other);
      RotateDouble(node, child, grandchild, side, c1, g1, g2, other);
      p, s := grandchild, Join(side, grandchild, Join(side, child, c1, g1), Join(side, node, g2, other));
    }
  }

  /** The heavy side of a node out of balance is not empty. */
  lemma HeavyChild<K, V>(node: AvlNode<K, V>, side: int, x: Shape<K, V>, other: Shape<K, V>)
    returns (c1: Shape<K, V>, c2: Shape<K, V>)
    requires side == 0 || side == 1
    requires Linked(node, Join(side, node, x, other)) && Lopsided(Model(Join(side, node, x, other)), 2 * Bal(side))
    ensures |node.lr| == 2 && node.lr[side] != null
    ensures x == Join(side, node.lr[side], c1, c2)
    ensures Model(Join(side, node, x, other)) ==
            JoinTree(side, JoinTree(side, Model(c1), node.lr[side].key, node.lr[side].value, node.lr[side].balance,
                                    Model(c2)),
                     node.key, node.value, node.balance, Model(other))
  {
    JoinFacts(side, node, x, other);
    JoinTreeFacts(side, Model(x), node.key, node.value, node.balance, Model(other));
    assert Height(Model(x)) >= 2;
    assert x != Empty;
    c1 := if side == 0 then x.left else x.right;
    c2 := if side == 0 then x.right else x.left;
    JoinFacts(side, x.node, c1, c2);
  }

  /** A child leaning inwards has a child there. */
  lemma InnerChild<K, V>(node: AvlNode<K, V>, child: AvlNode<K, V>, side: int,
                         c1: Shape<K, V>, c2: Shape<K, V>, other: Shape<K, V>)
    returns (g1: Shape<K, V>, g2: Shape<K, V>)
    requires side == 0 || side == 1
    requires Linked(node, Join(side, node, Join(side, child, c1, c2), other))
    requires Lopsided(Model(Join(side, node, Join(side, child, c1, c2), other)), 2 * Bal(side))
    requires child.balance == -Bal(side)
    ensures |child.lr| == 2 && child.lr[1 - side] != null
    ensures c2 == Join(side, child.lr[1 - side], g1, g2)
    ensures Model(c2) == JoinTree(side, Model(g1), child.lr[1 - side].key, child.lr[1 - side].value,
                                  child.lr[1 - side].balance, Model(g2))
  {
    JoinFacts(side, node, Join(side, child, c1, c2), other);
    JoinFacts(side, child, c1, c2);
    JoinTreeFacts(side, Model(c1), child.key, child.value, child.balance, Model(c2));
    JoinTreeFacts(side, Model(Join(side, child, c1, c2)), node.key, node.value, node.balance, Model(other));
    LinkedTo(node.lr[side], Join(side, child, c1, c2), child, side, c1, c2);
    assert Height(Model(c2)) >= 1;
    assert c2 != Empty;
    g1 := if side == 0 then c2.left else c2.right;
    g2 := if side == 0 then c2.right else c2.left;
    JoinFacts(side, c2.node, g1, g2);
  }

  lemma SingleNodes<K, V>(side: int, node: AvlNode<K, V>, child: AvlNode<K, V>,
                          c1: Shape<K, V>, c2: Shape<K, V>, other: Shape<K, V>)
    requires side == 0 || side == 1
    ensures Nodes(Join(side, child, c1, Join(side, node, c2, other))) ==
            Nodes(Join(side, node, Join(side, child, c1, c2), other))
    ensures {node, child} <= Nodes(Join(side, node, Join(side, child, c1, c2), other))
  {
  }

  lemma DoubleNodes<K, V>(side: int, node: AvlNode<K, V>, child: AvlNode<K, V>, grandchild: AvlNode<K, V>,
                          c1: Shape<K, V>, g1: Shape<K, V>, g2: Shape<K, V>, other: Shape<K, V>)
    requires side == 0 || side == 1
    ensures Nodes(Join(side, grandchild, Join(side, child, c1, g1), Join(side, node, g2, other))) ==
            Nodes(Join(side, node, Join(side, child, c1, Join(side, grandchild, g1, g2)), other))
    ensures {node, child, grandchild} <= Nodes(Join(side, node, Join(side, child, c1, Join(side, grandchild, g1, g2)),
                                                    other))
  {
    hide Nodes, Join, Linked, Model, JoinTree;
    var g, c := Join(side, grandchild, g1, g2), Join(side, child, c1, Join(side, grandchild, g1, g2));
    JoinFacts(side, grandchild, g1, g2);
    JoinFacts(side, child, c1, g);
    JoinFacts(side, node, c, other);
    JoinFacts(side, child, c1, g1);
    JoinFacts(side, node, g2, other);
    JoinFacts(side, grandchild, Join(side, child, c1, g1), Join(side, node, g2, other));
  }

  /** Record that sway was added to the balance of a node, rotating if that is too much.  Returns
      the balance of the node that then stands there. */
  method Sway<K, V>(node: AvlNode<K, V>, sway: int, ghost s: Shape<K, V>)
    returns (p: AvlNode<K, V>, bal: int, ghost s': Shape<K, V>)
    requires sway == -1 || sway == 1
    requires Linked(node, s) && -1 <= node.balance <= 1 && s.At?
    requires Lopsided(Model(s), node.balance + sway)
    modifies Nodes(s)
    ensures Linked(p, s') && Nodes(s') == Nodes(s)
    ensures Restored(old(Model(s)), old(node.balance) + sway, Model(s'))
    ensures bal == Model(s').balance
  {
    hide Linked, Model, Nodes, Lopsided, Restored;
    RootFacts(node, s);
    if node.balance != sway {
      SetBalance(node, s, node.balance + sway);
      node.balance := node.balance + sway;
      p, s' := node, s;
      LinkRoot(node, s);
    } else {
      ghost var side := Side(sway);
      ghost var x := if side == 0 then s.left else s.right;
      ghost var other := if side == 0 then s.right else s.left;
      assert s == Join(side, node, x, other);
      p, s' := Balance(node, Side(sway), x, other);
      RestoredIsTree(old(Model(s)), 2 * sway, Model(s'));
      ShapeOf(p, s');
      RootFacts(p, s');
    }
    bal := p.balance;
  }

  lemma RootFacts<K, V>(n: AvlNode<K, V>, s: Shape<K, V>)
    requires Linked(n, s)
    ensures s.At? && n == s.node && |n.lr| == 2 && n in Nodes(s)
    ensures Nodes(s) == Nodes(s.left) + {n} + Nodes(s.right)
    ensures Linked(n.lr[0], s.left) && Linked(n.lr[1], s.right)
    ensures n !in Nodes(s.left) && n !in Nodes(s.right) && Nodes(s.left) !! Nodes(s.right)
    ensures Model(s) == Bin(Model(s.left), n.key, n.value, n.balance, Model(s.right))
  {
  }

  lemma LinkRoot<K, V>(n: AvlNode<K, V>, s: Shape<K, V>)
    requires s.At? && n == s.node && |n.lr| == 2
    requires Linked(n.lr[0], s.left) && Linked(n.lr[1], s.right)
    requires n !in Nodes(s.left) && n !in Nodes(s.right) && Nodes(s.left) !! Nodes(s.right)
    ensures Linked(n, s)
    ensures Model(s) == Bin(Model(s.left), n.key, n.value, n.balance, Model(s.right))
  {
  }

  lemma ShapeOf<K, V>(p: AvlNode<K, V>, s: Shape<K, V>)
    requires Linked(p, s)
    ensures s.At? && s.node == p
  {
  }

  lemma SetBalance<K, V>(n: AvlNode<K, V>, s: Shape<K, V>, b: int)
    requires Linked(n, s) && Lopsided(Model(s), b) && -1 <= b <= 1
    ensures s.At? && Restored(Model(s), b, Bin(Model(s.left), n.key, n.value, b, Model(s.right)))
  {
  }

  lemma RestoredIsTree<K, V>(t: Tree<K, V>, d: int, t': Tree<K, V>)
    requires Restored(t, d, t')
    ensures t'.Bin?
  {
  }

  // ---------- Insertion ----------

  /** Which way a key lies from the root of an ordered tree. */
  ghost predicate Towards<K>(cmp: (K, K) -> int, k: K, m: K, side: int) {
    if side == 0 then cmp(k, m) < 0 else cmp(k, m) > 0
  }

  /** The subtrees of a search tree are search trees, and a key is looked for on one side. */
  lemma GoDown<K(!new), V>(cmp: (K, K) -> int, side: int, x: Tree<K, V>, m: (K, V), b: int, other: Tree<K, V>, k: K,
                           v: V)
    requires TotalPreorder(cmp) && (side == 0 || side == 1)
    requires Balanced(JoinTree(side, x, m.0, m.1, b, other))
    requires Ascending(cmp, InOrder(JoinTree(side, x, m.0, m.1, b, other)))
    requires Towards(cmp, k, m.0, side)
    ensures Balanced(x) && Balanced(other) && -1 <= b <= 1 && Ascending(cmp, InOrder(x))
    ensures var s := InOrder(JoinTree(side, x, m.0, m.1, b, other));
            && Put(cmp, s, k, v) == (if side == 0 then Put(cmp, InOrder(x), k, v) + [m] + InOrder(other)
                                     else InOrder(other) + [m] + Put(cmp, InOrder(x), k, v))
            && Cut(cmp, s, k) == (if side == 0 then Cut(cmp, InOrder(x), k) + [m] + InOrder(other)
                                  else InOrder(other) + [m] + Cut(cmp, InOrder(x), k))
            && Find(cmp, s, k) == Find(cmp, InOrder(x), k)
  {
    hide TotalPreorder, Put, Cut, Find, Ascending, InOrder, Height, Balanced, JoinTree;
    JoinTreeFacts(side, x, m.0, m.1, b, other);
    var s, o := InOrder(x), InOrder(other);
    if side == 0 {
      AscendingParts(cmp, s, m, o);
      SearchLeft(cmp, s, m, o, k, v);
    } else {
      AscendingParts(cmp, o, m, s);
      SearchRight(cmp, o, m, s, k, v);
    }
  }

  /** One subtree x has become x', one higher or not. */
  lemma AfterGrowth<K, V>(side: int, x: Tree<K, V>, k: K, v: V, b: int, other: Tree<K, V>, x': Tree<K, V>, grew: bool)
    requires side == 0 || side == 1
    requires Balanced(JoinTree(side, x, k, v, b, other))
    requires Balanced(x') && Height(x') == Height(x) + if grew then 1 else 0
    ensures var t, t1 := JoinTree(side, x, k, v, b, other), JoinTree(side, x', k, v, b, other);
            if grew then Lopsided(t1, b + Bal(side)) else Balanced(t1) && Height(t1) == Height(t)
  {
    hide Balanced, Height, JoinTree, Lopsided, InOrder;
    JoinTreeFacts(side, x, k, v, b, other);
    JoinTreeFacts(side, x', k, v, b, other);
  }

  /** One subtree x has become x', one lower or not. */
  lemma AfterShrinking<K, V>(side: int, x: Tree<K, V>, k: K, v: V, b: int, other: Tree<K, V>, x': Tree<K, V>,
                             shrunk: bool)
    requires side == 0 || side == 1
    requires Balanced(JoinTree(side, x, k, v, b, other))
    requires Balanced(x') && Height(x') == Height(x) - if shrunk then 1 else 0
    ensures var t, t1 := JoinTree(side, x, k, v, b, other), JoinTree(side, x', k, v, b, other);
            if shrunk then Lopsided(t1, b - Bal(side)) else Balanced(t1) && Height(t1) == Height(t)
  {
    hide Balanced, Height, JoinTree, Lopsided, InOrder;
    JoinTreeFacts(side, x, k, v, b, other);
    JoinTreeFacts(side, x', k, v, b, other);
  }

  lemma HeightAfterShrinking<K, V>(side: int, x: Tree<K, V>, k: K, v: V, b: int, other: Tree<K, V>, x': Tree<K, V>,
                                   t': Tree<K, V>)
    requires side == 0 || side == 1
    requires Balanced(JoinTree(side, x, k, v, b, other)) && Height(x') == Height(x) - 1
    requires Restored(JoinTree(side, x', k, v, b, other), b - Bal(side), t')
    ensures t'.Bin? && Height(t') == Height(JoinTree(side, x, k, v, b, other)) - if t'.balance == 0 then 1 else 0
  {
    hide *;
    var t, t1 := JoinTree(side, x, k, v, b, other), JoinTree(side, x', k, v, b, other);
    RestoredHeight(t1, b - Bal(side), t');
    JoinHeights(side, x, k, v, b, other);
    JoinHeights(side, x', k, v, b, other);
    ShrinkArithmetic(Height(x), Height(other), side, b, Height(t), Height(t1), Height(t'), t'.balance);
  }

  lemma ShrinkArithmetic(hx: int, ho: nat, side: int, b: int, h: nat, h1: nat, h': nat, b': int)
    requires side == 0 || side == 1
    requires -1 <= b <= 1 && b == (if side == 0 then ho - hx else hx - ho)
    requires h == 1 + Max(hx, ho) && h1 == 1 + Max(hx - 1, ho)
    requires -1 <= b - Bal(side) <= 1 ==> h' == h1 && b' == b - Bal(side)
    requires b - Bal(side) == 2 || b - Bal(side) == -2 ==> h' == h1 - if b' == 0 then 1 else 0
    ensures h' == h - if b' == 0 then 1 else 0
  {
  }

  lemma RestoredHeight<K, V>(t: Tree<K, V>, d: int, t': Tree<K, V>)
    requires Restored(t, d, t')
    ensures t'.Bin?
    ensures -1 <= d <= 1 ==> Height(t') == Height(t) && t'.balance == d
    ensures d == 2 || d == -2 ==> Height(t') == Height(t) - if t'.balance == 0 then 1 else 0
  {
    hide Balanced, Height, InOrder;
  }

  lemma HeightAfterGrowth<K, V>(side: int, x: Tree<K, V>, k: K, v: V, b: int, other: Tree<K, V>, x': Tree<K, V>,
                                t': Tree<K, V>)
    requires side == 0 || side == 1
    requires Balanced(JoinTree(side, x, k, v, b, other)) && Height(x') == Height(x) + 1
    requires Restored(JoinTree(side, x', k, v, b, other), b + Bal(side), t')
    ensures t'.Bin? && Height(t') == Height(JoinTree(side, x, k, v, b, other)) + if t'.balance != 0 then 1 else 0
  {
    hide *;
    var t, t1 := JoinTree(side, x, k, v, b, other), JoinTree(side, x', k, v, b, other);
    RestoredHeight(t1, b + Bal(side), t');
    JoinHeights(side, x, k, v, b, other);
    JoinHeights(side, x', k, v, b, other);
    GrowthArithmetic(Height(x), Height(other), side, b, Height(t), Height(t1), Height(t'), t'.balance);
  }

  lemma GrowthArithmetic(hx: nat, ho: nat, side: int, b: int, h: nat, h1: nat, h': nat, b': int)
    requires side == 0 || side == 1
    requires -1 <= b <= 1 && b == (if side == 0 then ho - hx else hx - ho)
    requires h == 1 + Max(hx, ho) && h1 == 1 + Max(hx + 1, ho)
    requires -1 <= b + Bal(side) <= 1 ==> h' == h1 && b' == b + Bal(side)
    requires b + Bal(side) == 2 || b + Bal(side) == -2 ==> h' == h1 - if b' == 0 then 1 else 0
    ensures h' == h + if b' != 0 then 1 else 0
  {
  }

  /** The pairs of a tree one subtree of which has become x'. */
  lemma OrderOfJoin<K, V>(side: int, x: Tree<K, V>, k: K, v: V, b: int, other: Tree<K, V>)
    requires side == 0 || side == 1
    ensures var s := InOrder(JoinTree(side, x, k, v, b, other));
            && s == (if side == 0 then InOrder(x) + [(k, v)] + InOrder(other)
                     else InOrder(other) + [(k, v)] + InOrder(x))
            && |s| == |InOrder(x)| + 1 + |InOrder(other)|
  {
  }

  /** Insert into a subtree; returns the node that takes the place of p, and whether the subtree
      has grown in height. */
  method Insert<K(!new), V>(avl: AVL<K, V>, p: AvlNode?<K, V>, key: K, value: V, ghost s: Shape<K, V>)
    returns (q: AvlNode<K, V>, grew: bool, ghost s': Shape<K, V>)
    requires TotalPreorder(avl.compare)
    requires Linked(p, s) && Balanced(Model(s)) && Ascending(avl.compare, InOrder(Model(s)))
    modifies avl`count, Nodes(s)
    ensures Linked(q, s') && Nodes(s) <= Nodes(s') && fresh(Nodes(s') - Nodes(s))
    ensures Balanced(Model(s'))
    ensures InOrder(Model(s')) == Put(avl.compare, old(InOrder(Model(s))), key, value)
    ensures Height(Model(s')) == old(Height(Model(s))) + if grew then 1 else 0
    ensures avl.count - old(avl.count) == |InOrder(Model(s'))| - old(|InOrder(Model(s))|)
    decreases s
  {
    hide Linked, Model, Nodes, TotalPreorder, Put, Cut, Find;
    hide Ascending, Restored, Lopsided, Balanced, Height, InOrder, JoinTree;
    if p == null {
      EmptyShape(s);
      q := new AvlNode(key, value);
      avl.count := avl.count + 1;
      s' := At(q, Empty, Empty);
      grew := true;
      LeafFacts(q, s, s', avl.compare, key, value);
    } else {
      var node: AvlNode<K, V> := p;
      RootFacts(node, s);
      var cmp := Sign(avl.compare(key, node.key));
      if cmp == 0 {
        ReplaceFacts(avl.compare, Model(s), key, value);
        node.key := key;
        node.value := value;
        q, grew, s' := node, false, s;
        LinkRoot(node, s);
        return;
      }
      var side := Side(cmp);
      ghost var x := if side == 0 then s.left else s.right;
      ghost var other := if side == 0 then s.right else s.left;
      ghost var tx, to, m, b := Model(x), Model(other), (node.key, node.value), node.balance;
      JoinFacts(side, node, x, other);
      GoDown(avl.compare, side, tx, m, b, to, key, value);
      OrderOfJoin(side, tx, m.0, m.1, b, to);
      assert allocated(Nodes(other));
      var c, childGrew;
      ghost var x';
      c, childGrew, x' := Insert(avl, node.lr[side], key, value, x);
      node.lr := node.lr[side := c];
      ghost var tx' := Model(x');
      JoinFacts(side, node, x', other);
      OrderOfJoin(side, tx', m.0, m.1, b, to);
      AfterGrowth(side, tx, m.0, m.1, b, to, tx', childGrew);
      q, grew, s' := node, false, Join(side, node, x', other);
      ghost var t1, n := Model(s'), avl.count;
      if childGrew {
        var bal;
        q, bal, s' := Sway(node, cmp, s');
        assert avl.count == n;
        RestoredFacts(t1, b + Bal(side), Model(s'));
        HeightAfterGrowth(side, tx, m.0, m.1, b, to, tx', Model(s'));
        grew := bal != 0;
      }
    }
  }

  lemma RestoredFacts<K, V>(t: Tree<K, V>, d: int, t': Tree<K, V>)
    requires Restored(t, d, t')
    ensures t'.Bin? && Balanced(t') && InOrder(t') == InOrder(t)
  {
  }

  lemma ReplaceFacts<K(!new), V>(cmp: (K, K) -> int, t: Tree<K, V>, k: K, v: V)
    requires TotalPreorder(cmp) && t.Bin? && Balanced(t) && Ascending(cmp, InOrder(t)) && cmp(k, t.key) == 0
    ensures var t' := Bin(t.left, k, v, t.balance, t.right);
            && Balanced(t') && Height(t') == Height(t)
            && InOrder(t') == Put(cmp, InOrder(t), k, v) && |InOrder(t')| == |InOrder(t)|
  {
    hide TotalPreorder, Put, Ascending;
    AscendingParts(cmp, InOrder(t.left), (t.key, t.value), InOrder(t.right));
    SearchHere(cmp, InOrder(t.left), (t.key, t.value), InOrder(t.right), k, v);
  }

  lemma EmptyShape<K, V>(s: Shape<K, V>)
    requires Linked(null, s)
    ensures s == Empty && Model(s) == Nil
  {
  }

  lemma LeafFacts<K, V>(n: AvlNode<K, V>, s: Shape<K, V>, s': Shape<K, V>, cmp: (K, K) -> int, key: K, value: V)
    requires s == Empty && s' == At(n, Empty, Empty)
    requires n.key == key && n.value == value && n.lr == [null, null] && n.balance == 0
    ensures Nodes(s) == {} && Model(s) == Nil
    ensures Linked(n, s') && Nodes(s') == {n} && Model(s') == Bin(Nil, key, value, 0, Nil)
    ensures Put(cmp, InOrder(Model(s)), key, value) == InOrder(Model(s')) == [(key, value)] && InOrder(Model(s)) == []
    ensures Balanced(Model(s')) && Height(Model(s')) == 1 && Height(Model(s)) == 0
  {
  }

  // ---------- Removal ----------

  /** Take out the outermost node on the given side of a subtree.  Returns that node, the node
      that takes the place of p, and whether the subtree has become lower. */
  method RemoveExtremum<K, V>(p: AvlNode<K, V>, side: int, ghost s: Shape<K, V>)
    returns (ret: AvlNode<K, V>, q: AvlNode?<K, V>, shrunk: bool, ghost s': Shape<K, V>)
    requires side == 0 || side == 1
    requires Linked(p, s) && Balanced(Model(s))
    modifies Nodes(s)
    ensures Linked(q, s') && ret in Nodes(s) && Nodes(s') == Nodes(s) - {ret}
    ensures Balanced(Model(s'))
    ensures Height(Model(s')) == old(Height(Model(s))) - if shrunk then 1 else 0
    ensures old(InOrder(Model(s))) == if side == 0 then [(ret.key, ret.value)] + InOrder(Model(s'))
                                      else InOrder(Model(s')) + [(ret.key, ret.value)]
    decreases s
  {
    hide Linked, Model, Nodes, Restored, Lopsided, Balanced, Height, InOrder, JoinTree;
    var node := p;
    RootFacts(node, s);
    ghost var x := if side == 0 then s.left else s.right;
    ghost var other := if side == 0 then s.right else s.left;
    ghost var tx, to, m, b := Model(x), Model(other), (node.key, node.value), node.balance;
    JoinFacts(side, node, x, other);
    Subtrees(side, tx, m, b, to);
    if node.lr[side] == null {
      EmptyShape(x);
      OneChild(side, m, b, to);
      ret, q, shrunk, s' := node, node.lr[1 - side], true, other;
      EmptyNodes<K, V>();
      return;
    }
    assert allocated(Nodes(other));
    var c;
    ghost var x';
    ret, c, shrunk, x' := RemoveExtremum(node.lr[side], side, x);
    node.lr := node.lr[side := c];
    ghost var tx' := Model(x');
    JoinFacts(side, node, x', other);
    OrderOfJoin(side, tx, m.0, m.1, b, to);
    OrderOfJoin(side, tx', m.0, m.1, b, to);
    AfterShrinking(side, tx, m.0, m.1, b, to, tx', shrunk);
    q, s' := node, Join(side, node, x', other);
    EndsFirst(side, (ret.key, ret.value), InOrder(tx'), m, InOrder(to));
    if shrunk {
      ghost var t1 := Model(s');
      var bal;
      q, bal, s' := Sway(node, -Bal(side), s');
      RestoredFacts(t1, b - Bal(side), Model(s'));
      HeightAfterShrinking(side, tx, m.0, m.1, b, to, tx', Model(s'));
      shrunk := bal == 0;
    }
  }

  lemma EmptyNodes<K, V>()
    ensures Nodes<K, V>(Empty) == {}
  {
  }

  lemma Subtrees<K, V>(side: int, x: Tree<K, V>, m: (K, V), b: int, other: Tree<K, V>)
    requires (side == 0 || side == 1) && Balanced(JoinTree(side, x, m.0, m.1, b, other))
    ensures Balanced(x) && Balanced(other) && -1 <= b <= 1
  {
  }

  /** With nothing on one side, the other side takes the place of the root. */
  lemma OneChild<K, V>(side: int, m: (K, V), b: int, other: Tree<K, V>)
    requires (side == 0 || side == 1) && Balanced(JoinTree(side, Nil, m.0, m.1, b, other))
    ensures var t := JoinTree(side, Nil, m.0, m.1, b, other);
            && Height(other) == Height(t) - 1 && Balanced(other)
            && InOrder(t) == (if side == 0 then [m] + InOrder(other) else InOrder(other) + [m])
  {
  }

  lemma EndsFirst<T>(side: int, e: T, x: seq<T>, m: T, o: seq<T>)
    ensures side == 0 ==> ([e] + x) + [m] + o == [e] + (x + [m] + o)
    ensures side != 0 ==> o + [m] + (x + [e]) == (o + [m] + x) + [e]
  {
  }

  /** Remove a key from a subtree.  Returns the node that takes the place of p, whether the
      subtree has become lower, and the node taken out, if the key was there. */
  method Remove<K(!new), V>(avl: AVL<K, V>, p: AvlNode?<K, V>, key: K, ghost s: Shape<K, V>)
    returns (ret: AvlNode?<K, V>, q: AvlNode?<K, V>, shrunk: bool, ghost s': Shape<K, V>)
    requires TotalPreorder(avl.compare)
    requires Linked(p, s) && Balanced(Model(s)) && Ascending(avl.compare, InOrder(Model(s)))
    requires |InOrder(Model(s))| <= avl.count
    modifies avl`count, Nodes(s)
    ensures Linked(q, s') && Nodes(s') <= Nodes(s)
    ensures Balanced(Model(s'))
    ensures InOrder(Model(s')) == Cut(avl.compare, old(InOrder(Model(s))), key)
    ensures Height(Model(s')) == old(Height(Model(s))) - if shrunk then 1 else 0
    ensures ret == null <==> Find(avl.compare, old(InOrder(Model(s))), key) == None
    ensures avl.count - old(avl.count) == |InOrder(Model(s'))| - old(|InOrder(Model(s))|)
    decreases s
  {
    hide Linked, Model, Nodes, TotalPreorder, Put, Cut, Find;
    hide Ascending, Restored, Lopsided, Balanced, Height, InOrder, JoinTree;
    if p == null {
      EmptyShape(s);
      NothingThere<K, V>(avl.compare, key);
      return null, null, false, s;
    }
    var node: AvlNode<K, V> := p;
    RootFacts(node, s);
    var cmp := Sign(avl.compare(key, node.key));
    if cmp == 0 {
      q, shrunk, s' := RemoveHere(avl, node, key, s);
      ret := node;
      return;
    }
    var side := Side(cmp);
    ghost var x := if side == 0 then s.left else s.right;
    ghost var other := if side == 0 then s.right else s.left;
    ghost var tx, to, m, b := Model(x), Model(other), (node.key, node.value), node.balance;
    JoinFacts(side, node, x, other);
    GoDown(avl.compare, side, tx, m, b, to, key, node.value);
    OrderOfJoin(side, tx, m.0, m.1, b, to);
    assert allocated(Nodes(other));
    var c;
    ghost var x';
    ret, c, shrunk, x' := Remove(avl, node.lr[side], key, x);
    node.lr := node.lr[side := c];
    ghost var tx' := Model(x');
    JoinFacts(side, node, x', other);
    OrderOfJoin(side, tx', m.0, m.1, b, to);
    AfterShrinking(side, tx, m.0, m.1, b, to, tx', shrunk);
    q, s' := node, Join(side, node, x', other);
    if shrunk {
      ghost var t1, n := Model(s'), avl.count;
      var bal;
      q, bal, s' := Sway(node, -cmp, s');
      assert avl.count == n;
      RestoredFacts(t1, b - Bal(side), Model(s'));
      HeightAfterShrinking(side, tx, m.0, m.1, b, to, tx', Model(s'));
      shrunk := bal == 0;
    }
  }

  lemma NothingThere<K, V>(cmp: (K, K) -> int, k: K)
    ensures InOrder<K, V>(Nil) == [] && Cut<K, V>(cmp, [], k) == [] && Find<K, V>(cmp, [], k) == None
  {
  }

  /** Take out the root of a subtree: a neighbour in order, from the higher side, takes its place
      if there are two subtrees. */
  method RemoveHere<K(!new), V>(avl: AVL<K, V>, node: AvlNode<K, V>, key: K, ghost s: Shape<K, V>)
    returns (q: AvlNode?<K, V>, shrunk: bool, ghost s': Shape<K, V>)
    requires TotalPreorder(avl.compare) && avl.compare(key, node.key) == 0
    requires Linked(node, s) && Balanced(Model(s)) && Ascending(avl.compare, InOrder(Model(s)))
    requires |InOrder(Model(s))| <= avl.count
    modifies avl`count, Nodes(s)
    ensures Linked(q, s') && Nodes(s') <= Nodes(s)
    ensures Balanced(Model(s'))
    ensures InOrder(Model(s')) == Cut(avl.compare, old(InOrder(Model(s))), key)
    ensures Height(Model(s')) == old(Height(Model(s))) - if shrunk then 1 else 0
    ensures Find(avl.compare, old(InOrder(Model(s))), key) != None
    ensures avl.count - old(avl.count) == |InOrder(Model(s'))| - old(|InOrder(Model(s))|)
  {
    hide Linked, Model, Nodes, TotalPreorder, Put, Cut, Find;
    hide Ascending, Restored, Lopsided, Balanced, Height, InOrder, JoinTree;
    RootFacts(node, s);
    CutRoot(avl.compare, Model(s), key);
    avl.count := avl.count - 1;
    ghost var n := avl.count;
    if node.lr[0] != null && node.lr[1] != null {
      q, shrunk, s' := ReplaceRoot(node, s);
      assert avl.count == n;
    } else {
      ghost var m, b := (node.key, node.value), node.balance;
      ghost var side := if node.lr[0] != null then 1 else 0;
      ghost var x := if side == 0 then s.left else s.right;
      ghost var other := if side == 0 then s.right else s.left;
      JoinFacts(side, node, x, other);
      EmptyShape(x);
      OneChild(side, m, b, Model(other));
      OrderOfJoin(side, Nil, m.0, m.1, b, Model(other));
      NothingThere<K, V>(avl.compare, key);
      if node.lr[0] != null {
        q, s' := node.lr[0], s.left;
      } else {
        q, s' := node.lr[1], s.right;
      }
      shrunk := true;
    }
  }

  /** A neighbour in order takes the place of the root. */
  method ReplaceRoot<K, V>(node: AvlNode<K, V>, ghost s: Shape<K, V>)
    returns (q: AvlNode?<K, V>, shrunk: bool, ghost s': Shape<K, V>)
    requires Linked(node, s) && Balanced(Model(s)) && |node.lr| == 2 && node.lr[0] != null && node.lr[1] != null
    modifies Nodes(s)
    ensures Linked(q, s') && Nodes(s') <= Nodes(s)
    ensures Balanced(Model(s'))
    ensures Height(Model(s')) == old(Height(Model(s))) - if shrunk then 1 else 0
    ensures s.At? && InOrder(Model(s')) == old(InOrder(Model(s.left))) + old(InOrder(Model(s.right)))
  {
    hide Linked, Model, Nodes, Restored, Lopsided, Balanced, Height, InOrder, JoinTree;
    RootFacts(node, s);
    var side := if node.balance <= 0 then 0 else 1;
    ghost var x := if side == 0 then s.left else s.right;
    ghost var other := if side == 0 then s.right else s.left;
    ghost var tx, to, m, b := Model(x), Model(other), (node.key, node.value), node.balance;
    JoinFacts(side, node, x, other);
    Subtrees(side, tx, m, b, to);
    assert allocated(Nodes(other));
    var replacement, c;
    ghost var x';
    replacement, c, shrunk, x' := RemoveExtremum(node.lr[side], 1 - side, x);
    ghost var tx' := Model(x');
    replacement.lr := node.lr[side := c];
    replacement.balance := node.balance;
    q := replacement;
    if shrunk {
      replacement.balance := replacement.balance - Bal(side);
    }
    s' := Join(side, replacement, x', other);
    JoinFacts(side, replacement, x', other);
    ReplacedRoot(side, tx, m, b, to, tx', (replacement.key, replacement.value), shrunk);
    shrunk := shrunk && replacement.balance == 0;
  }

  lemma CutRoot<K(!new), V>(cmp: (K, K) -> int, t: Tree<K, V>, k: K)
    requires TotalPreorder(cmp) && t.Bin? && Ascending(cmp, InOrder(t)) && cmp(k, t.key) == 0
    ensures Cut(cmp, InOrder(t), k) == InOrder(t.left) + InOrder(t.right)
    ensures Find(cmp, InOrder(t), k) != None
    ensures |InOrder(t)| == |InOrder(t.left)| + 1 + |InOrder(t.right)|
  {
    hide TotalPreorder, Cut, Find, Put, Ascending;
    AscendingParts(cmp, InOrder(t.left), (t.key, t.value), InOrder(t.right));
    SearchHere(cmp, InOrder(t.left), (t.key, t.value), InOrder(t.right), k, t.value);
  }

  /** The neighbour e of the root m, taken from the side that is not lower, replaces m. */
  lemma ReplacedRoot<K, V>(side: int, x: Tree<K, V>, m: (K, V), b: int, other: Tree<K, V>, x': Tree<K, V>, e: (K, V),
                           shrunk: bool)
    requires (side == 0 && b <= 0) || (side == 1 && b > 0)
    requires Balanced(JoinTree(side, x, m.0, m.1, b, other)) && Balanced(x')
    requires Height(x') == Height(x) - if shrunk then 1 else 0
    requires InOrder(x) == if side == 0 then InOrder(x') + [e] else [e] + InOrder(x')
    ensures var b' := if shrunk then b - Bal(side) else b;
            var t' := JoinTree(side, x', e.0, e.1, b', other);
            && Balanced(t')
            && Height(t') == Height(JoinTree(side, x, m.0, m.1, b, other)) - (if shrunk && b' == 0 then 1 else 0)
            && InOrder(t') == (if side == 0 then InOrder(x) + InOrder(other) else InOrder(other) + InOrder(x))
  {
    hide Balanced, Height, JoinTree, Lopsided, InOrder;
    var b' := if shrunk then b - Bal(side) else b;
    JoinTreeFacts(side, x, m.0, m.1, b, other);
    JoinTreeFacts(side, x', e.0, e.1, b', other);
  }

  // ---------- The tree object ----------

  /** Search below p. */
  function LookupNode<K, V>(compare: (K, K) -> int, p: AvlNode?<K, V>, key: K, ghost s: Shape<K, V>): AvlNode?<K, V>
    requires Linked(p, s)
    reads Nodes(s)
    decreases s
  {
    if p == null then null
    else
      var cmp := compare(key, p.key);
      if cmp < 0 then LookupNode(compare, p.lr[0], key, s.left)
      else if cmp > 0 then LookupNode(compare, p.lr[1], key, s.right)
      else p
  }

  lemma {:induction false} LookupFinds<K(!new), V>(compare: (K, K) -> int, p: AvlNode?<K, V>, key: K, s: Shape<K, V>)
    requires TotalPreorder(compare)
    requires Linked(p, s) && Balanced(Model(s)) && Ascending(compare, InOrder(Model(s)))
    ensures var n := LookupNode(compare, p, key, s);
            Find(compare, InOrder(Model(s)), key) == if n == null then None else Some(n.value)
    decreases s
  {
    hide Linked, Model, Nodes, TotalPreorder, Put, Cut, Find, Ascending, Balanced, InOrder, JoinTree;
    if p == null {
      EmptyShape(s);
      NothingThere<K, V>(compare, key);
    } else {
      RootFacts(p, s);
      var cmp := compare(key, p.key);
      if cmp == 0 {
        FindRoot(compare, Model(s), key);
      } else {
        var side := if cmp < 0 then 0 else 1;
        var x, other := if side == 0 then s.left else s.right, if side == 0 then s.right else s.left;
        JoinFacts(side, p, x, other);
        GoDown(compare, side, Model(x), (p.key, p.value), p.balance, Model(other), key, p.value);
        LookupFinds(compare, p.lr[side], key, x);
      }
    }
  }

  lemma FindRoot<K(!new), V>(cmp: (K, K) -> int, t: Tree<K, V>, k: K)
    requires TotalPreorder(cmp) && t.Bin? && Ascending(cmp, InOrder(t)) && cmp(k, t.key) == 0
    ensures Find(cmp, InOrder(t), k) == Some(t.value)
  {
    hide TotalPreorder, Cut, Find, Put, Ascending;
    AscendingParts(cmp, InOrder(t.left), (t.key, t.value), InOrder(t.right));
    SearchHere(cmp, InOrder(t.left), (t.key, t.value), InOrder(t.right), k, t.value);
  }

  class AVL<K(!new), V> {
    const compare: (K, K) -> int
    var root: AvlNode?<K, V>
    var count: nat
    ghost var shape: Shape<K, V>

    /** A search tree, balanced at every node, with its size in count. */
    ghost predicate Valid()
      reads this, Nodes(shape)
    {
      && TotalPreorder(compare)
      && Linked(root, shape)
      && Balanced(Model(shape))
      && Ascending(compare, Contents())
      && count == |Contents()|
    }

    /** The pairs of the map, keys ascending. */
    ghost function Contents(): seq<(K, V)>
      reads this, Nodes(shape)
    {
      InOrder(Model(shape))
    }

    constructor (compare: (K, K) -> int)
      requires TotalPreorder(compare)
      ensures Valid() && Contents() == [] && this.compare == compare
      ensures Nodes(shape) == {}
    {
      this.compare := compare;
      root, count, shape := null, 0, Empty;
    }

    /** Add a pair, or replace the one whose key compares equal. */
    method AvlInsert(key: K, value: V) returns (added: bool)
      requires Valid()
      modifies this, Nodes(shape)
      ensures Valid() && fresh(Nodes(shape) - old(Nodes(shape)))
      ensures Contents() == Put(compare, old(Contents()), key, value)
      ensures added <==> Find(compare, old(Contents()), key) == None
    {
      hide Linked, Model, Nodes, TotalPreorder, Put, Find, Ascending, Balanced, Height, InOrder;
      var oldCount := count;
      PutSize(compare, Contents(), key, value);
      PutAscending(compare, Contents(), key, value);
      var q, grew;
      q, grew, shape := Insert(this, root, key, value, shape);
      root := q;
      added := count != oldCount;
    }

    /** Remove the key that compares equal, if there is one. */
    method AvlRemove(key: K) returns (removed: bool)
      requires Valid()
      modifies this, Nodes(shape)
      ensures Valid() && Nodes(shape) <= old(Nodes(shape))
      ensures Contents() == Cut(compare, old(Contents()), key)
      ensures removed <==> Find(compare, old(Contents()), key) != None
    {
      hide Linked, Model, Nodes, TotalPreorder, Cut, Find, Ascending, Balanced, Height, InOrder;
      CutAscending(compare, Contents(), key);
      var node, q, shrunk;
      node, q, shrunk, shape := Remove(this, root, key, shape);
      root := q;
      removed := node != null;
    }

    method AvlLookup(key: K) returns (r: Option<V>)
      requires Valid()
      ensures r == Find(compare, Contents(), key)
    {
      LookupFinds(compare, root, key, shape);
      var found := LookupNode(compare, root, key, shape);
      r := if found == null then None else Some(found.value);
    }
  }

  lemma {:induction false} PutSize<K(!new), V>(cmp: (K, K) -> int, s: seq<(K, V)>, k: K, v: V)
    requires TotalPreorder(cmp) && Ascending(cmp, s)
    ensures |Put(cmp, s, k, v)| == |s| + if Find(cmp, s, k) == None then 1 else 0
    decreases |s|
  {
    hide TotalPreorder, Put, Find, Ascending;
    if s == [] {
      PutEmpty(cmp, k, v);
      EmptyList(cmp, k, v);
    } else {
      var x, t := s[0], s[1..];
      assert s == [x] + t;
      AscendingFirst(cmp, x, t);
      FirstPair(cmp, x, t, k, v);
      PutSize(cmp, t, k, v);
      if cmp(k, x.0) < 0 {
        Nowhere(cmp, t, x.0, k);
      }
    }
  }
}
