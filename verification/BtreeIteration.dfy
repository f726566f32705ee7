/** Positions in a B-tree: moving, finding, inserting and removing by iterator. */
module BtreeIteration {
  import opened Basics
  import opened Orders
  import opened BtreeMemory
  import opened BtreeInsertion
  import opened BtreeRemoval
  import opened Btree

  /** The start of branch k: where it begins, seen from above and from inside. */
  lemma BranchBegin<T>(m: Memory<T>, root: Id, p: Id, k: nat)
    requires Linked(m, root, NULL) && p in m && Leads(m, p) && k <= |m[p].item| && m[p].depth > 0
    ensures k < |m[p].branch|
    ensures var c := m[p].branch[k];
            && c in m && c != root && Leads(m, c) && m[c].depth + 1 == m[p].depth
            && Left(m, root, c, 0) == Left(m, root, p, k)
            && Mid(m, c, 0) + Right(m, root, c, 0) == Mid(m, p, k) + Right(m, root, p, k)
  {
    BranchFacts(m, root, NULL, p, k);
    var c := m[p].branch[k];
    assert Leads(m, c);
    hide Items, Woven, After, Linked, Left, Right;
    LeftOf(m, root, c, 0);
    NodeParts(m, c, 0);
    EndOuter(m, c);
    hide Inner, Outer, Leads, Mid;
    MidIs(m, p, k);
    BeginRow(Left(m, root, p, k), Inner(m, c, 0), Mid(m, c, 0), Outer(m, c, 0), Right(m, root, p, k), Mid(m, p, k));
  }

  lemma BeginRow<T>(left: seq<T>, inner: seq<T>, mid: seq<T>, outer: seq<T>, right: seq<T>, sub: seq<T>)
    requires inner == [] && sub == inner + mid + outer
    ensures left + inner == left && mid + (outer + right) == sub + right
  {
  }

  /** One step over item k - 1. */
  lemma StepBack<T>(m: Memory<T>, root: Id, p: Id, k: nat)
    requires Linked(m, root, NULL) && p in m && Leads(m, p) && 0 < k <= |m[p].item|
    ensures Left(m, root, p, k) == ItemsBefore(m, root, p, k - 1) + [m[p].item[k - 1]]
    ensures ItemsAfter(m, root, p, k - 1) == [m[p].item[k - 1]] + (Mid(m, p, k) + Right(m, root, p, k))
  {
    hide Linked, Leads, Left, Right, Prefix, Suffix, Inner, Outer, Mid, Items, Woven, After;
    AroundPosition(m, root, p, k);
    AroundPosition(m, root, p, k - 1);
    InnerStepped(m, p, k);
    OuterStepped(m, p, k);
    StepRow(Prefix(m, root, p), Inner(m, p, k - 1), Mid(m, p, k - 1), m[p].item[k - 1], Mid(m, p, k), Outer(m, p, k),
            Suffix(m, root, p),
            Inner(m, p, k), Outer(m, p, k - 1));
  }

  lemma StepRow<T>(pre: seq<T>, inner: seq<T>, mid: seq<T>, x: T, mid': seq<T>, outer: seq<T>, suf: seq<T>,
                   inner': seq<T>, outer': seq<T>)
    requires inner' == inner + mid + [x] && outer' == [x] + (mid' + outer)
    ensures pre + inner' == (pre + inner + mid) + [x]
    ensures outer' + suf == [x] + (mid' + (outer + suf))
  {
  }

  lemma InnerStepped<T>(m: Memory<T>, p: Id, k: nat)
    requires p in m && Leads(m, p) && 0 < k <= |m[p].item|
    ensures Inner(m, p, k) == Inner(m, p, k - 1) + Mid(m, p, k - 1) + [m[p].item[k - 1]]
  {
    if m[p].depth == 0 {
      assert m[p].item[..k] == m[p].item[..k - 1] + [] + [m[p].item[k - 1]];
    } else {
      hide Items, Woven;
      InnerStep(m, m[p].branch, m[p].item, k - 1, m[p].depth - 1);
    }
  }

  lemma OuterStepped<T>(m: Memory<T>, p: Id, k: nat)
    requires p in m && Leads(m, p) && 0 < k <= |m[p].item|
    ensures Outer(m, p, k - 1) == [m[p].item[k - 1]] + (Mid(m, p, k) + Outer(m, p, k))
  {
    if m[p].depth == 0 {
      OuterOfLeaf(m, p, k);
    } else {
      hide *;
      OuterFirst(m, p, k - 1);
      MidIs(m, p, k);
    }
  }

  lemma OuterOfLeaf<T>(m: Memory<T>, p: Id, k: nat)
    requires p in m && Leads(m, p) && 0 < k <= |m[p].item| && m[p].depth == 0
    ensures Outer(m, p, k - 1) == [m[p].item[k - 1]] + (Mid(m, p, k) + Outer(m, p, k))
  {
    hide Items, Woven, After, Leads;
    FromOneBefore(m[p].item, k);
  }

  lemma FromOneBefore<T>(s: seq<T>, k: nat)
    requires 0 < k <= |s|
    ensures s[k - 1..] == [s[k - 1]] + ([] + s[k..])
  {
  }

  /** At the end of the root nothing comes after; elsewhere the next item is item k. */
  lemma NextItem<T>(m: Memory<T>, root: Id, p: Id, k: nat)
    requires Linked(m, root, NULL) && p in m && Leads(m, p) && k <= |m[p].item|
    ensures k < |m[p].item| ==> ItemsAfter(m, root, p, k) != [] && ItemsAfter(m, root, p, k)[0] == m[p].item[k]
    ensures k == |m[p].item| && p == root ==> ItemsAfter(m, root, p, k) == []
  {
    hide Linked, Leads, Left, Inner, Outer, Mid, Items, Woven, After;
    if k < |m[p].item| {
      StepBack(m, root, p, k + 1);
    } else {
      EndOuter(m, p);
    }
  }

  /** At the start of the root nothing comes before. */
  lemma FirstItem<T>(m: Memory<T>, root: Id)
    requires Linked(m, root, NULL) && root in m && Leads(m, root)
    ensures Left(m, root, root, 0) == []
    ensures Mid(m, root, 0) + Right(m, root, root, 0) == Contents(m, root)
  {
    hide Linked, Leads, Items, Woven, Inner, Mid, Outer;
    EndOuter(m, root);
    Position(m, root, root, 0);
    assert Left(m, root, root, 0) == [];
    assert [] + Mid(m, root, 0) + Right(m, root, root, 0) == Mid(m, root, 0) + Right(m, root, root, 0);
  }

  lemma LeafMid<T>(m: Memory<T>, root: Id, p: Id, k: nat)
    requires Linked(m, root, NULL) && p in m && Leads(m, p) && k <= |m[p].item| && m[p].depth == 0
    ensures ItemsBefore(m, root, p, k) == Left(m, root, p, k)
    ensures ItemsAfter(m, root, p, k) == Mid(m, p, k) + Right(m, root, p, k)
  {
    hide Linked, Leads, Left, Right;
    assert Left(m, root, p, k) + [] == Left(m, root, p, k) && [] + Right(m, root, p, k) == Right(m, root, p, k);
  }

  class BtreeIterator<T(0)> {
    var btree: BTree<T>
    var node: Id
    var k: nat
    var item: Option<T>

    constructor (btree: BTree<T>)
      ensures this.btree == btree
    {
      this.btree := btree;
      node, k, item := NULL, 0, None;
    }

    /** The iterator is at a position of its tree. */
    ghost predicate At()
      reads this, btree
    {
      && btree.Valid() && node in btree.nodes && Leads(btree.nodes, node) && k <= |btree.nodes[node].item|
    }

    ghost function Before(): seq<T>
      reads this, btree
      requires At()
    {
      ItemsBefore(btree.nodes, btree.root, node, k)
    }

    ghost function After(): seq<T>
      reads this, btree
      requires At()
    {
      ItemsAfter(btree.nodes, btree.root, node, k)
    }

    /** Go to the end of the branch at the position.  The position stays the same. */
    method ToBranchEnd()
      requires At() && btree.nodes[node].depth > 0
      modifies this`node, this`k
      ensures At() && btree.nodes[node].depth == 0 && node != btree.root && k == |btree.nodes[node].item|
      ensures Before() == old(Before()) && After() == old(After())
    {
      hide Linked, Leads, ItemsBefore, ItemsAfter, Occupied;
      BranchEnd(btree.nodes, btree.root, node, k);
      node := btree.nodes[node].branch[k];
      k := |btree.nodes[node].item|;
      var depth := btree.nodes[node].depth;
      while depth > 0
        invariant At() && depth == btree.nodes[node].depth && k == |btree.nodes[node].item| && node != btree.root
        invariant Before() == old(Before()) && After() == old(After())
      {
        BranchEnd(btree.nodes, btree.root, node, k);
        node := btree.nodes[node].branch[k];
        k := |btree.nodes[node].item|;
        depth := depth - 1;
      }
    }

    /** Go to the start of the branch at the position. */
    method ToBranchBegin()
      requires At() && btree.nodes[node].depth > 0
      modifies this`node, this`k
      ensures At() && btree.nodes[node].depth == 0 && k == 0 && node != btree.root
      ensures Before() == old(Left(btree.nodes, btree.root, node, k))
      ensures After() == old(Mid(btree.nodes, node, k) + Right(btree.nodes, btree.root, node, k))
      ensures node == old(Leftmost(btree.nodes, btree.nodes[node].branch[k], btree.nodes[node].depth - 1))
    {
      hide Linked, Leads, ItemsBefore, ItemsAfter, Occupied, Left, Right, Mid, Leftmost;
      ghost var m, root := btree.nodes, btree.root;
      BranchBegin(m, root, node, k);
      node := btree.nodes[node].branch[k];
      k := 0;
      var depth := btree.nodes[node].depth;
      while depth > 0
        invariant At() && btree.nodes == m && btree.root == root && depth == m[node].depth && k == 0 && node != root
        invariant Left(m, root, node, 0) == old(Left(btree.nodes, btree.root, node, k))
        invariant Mid(m, node, 0) + Right(m, root, node,
            0) == old(Mid(btree.nodes, node, k) + Right(btree.nodes, btree.root, node, k))
        invariant Leftmost(m, node, depth) == old(Leftmost(btree.nodes, btree.nodes[node].branch[k],
                                                           btree.nodes[node].depth - 1))
      {
        BranchBegin(m, root, node, 0);
        FirstBranch(m, root, node, depth);
        node := btree.nodes[node].branch[0];
        depth := depth - 1;
      }
      LeafMid(m, root, node, 0);
      LeftmostIsLeaf(m, node);
    }

    /** Go to the beginning of the tree (lr = 0) or to its end (lr = 1). */
    method BeginEnd(tree: BTree<T>, lr: int) returns (any: bool)
      requires tree.Valid() && (lr == 0 || lr == 1)
      modifies this`btree, this`node, this`k, this`item
      ensures btree == tree && At() && (if lr == 0 then Before() == [] else After() == [])
      ensures any <==> Contents(tree.nodes, tree.root) != []
      ensures any ==> item == Some(if lr == 0 then Contents(tree.nodes, tree.root)[0]
                                   else Contents(tree.nodes, tree.root)[|Contents(tree.nodes, tree.root)| - 1])
    {
      hide Linked, Leads, ItemsBefore, ItemsAfter, Occupied, Left, Right, Mid, Leftmost, Contents;
      ghost var m, root := tree.nodes, tree.root;
      LinkedFacts(m, root, NULL);
      FirstItem(m, root);
      btree := tree;
      node := tree.root;
      k := if lr == 1 then |tree.nodes[node].item| else 0;
      NextItem(m, root, node, k);
      if tree.nodes[node].depth > 0 {
        if lr == 1 {
          ToBranchEnd();
        } else {
          ToBranchBegin();
        }
        LeafFull(m, root, node);
      } else {
        LeafMid(m, root, node, k);
      }
      PositionSplits(m, root, node, k);
      if |tree.nodes[node].item| > 0 {
        item := Some(tree.nodes[node].item[k - lr]);
        if lr == 1 {
          StepBack(m, root, node, k);
          LeafMid(m, root, node, k);
        } else {
          NextItem(m, root, node, k);
        }
        return true;
      }
      EmptyLeaf(m, root, node, k);
      return false;
    }

    /** Find the item at the position, ascending if it is at the end of a node. */
    method Deref() returns (ok: bool)
      requires At()
      modifies this`node, this`k, this`item
      ensures At() && Before() == old(Before()) && After() == old(After())
      ensures ok <==> After() != []
      ensures ok ==> k < |btree.nodes[node].item| && item == Some(After()[0]) && After()[0] == btree.nodes[node].item[k]
      ensures !ok ==> node == old(node) && k == old(k) && item == old(item)
    {
      hide Linked, Leads, ItemsBefore, ItemsAfter, Occupied;
      ghost var m, root := btree.nodes, btree.root;
      LinkedFacts(m, root, NULL);
      if k >= |btree.nodes[node].item| {
        var node0, k0 := node, k;
        while k >= |btree.nodes[node].item|
          invariant At() && btree.nodes == m && btree.root == root && item == old(item)
          invariant Before() == old(Before()) && After() == old(After())
          decreases m[root].depth - m[node].depth
        {
          LinkedFacts(m, root, NULL);
          RootFacts(m, root, NULL, node);
          if btree.nodes[node].parent == NULL {
            NextItem(m, root, node, k);
            node, k := node0, k0;
            return false;
          }
          ParentFacts(m, root, NULL, node);
          RootFacts(m, root, NULL, m[node].parent);
          BranchEnd(m, root, m[node].parent, m[node].k);
          node, k := btree.nodes[node].parent, btree.nodes[node].k;
        }
      }
      NextItem(m, root, node, k);
      item := Some(btree.nodes[node].item[k]);
      return true;
    }

    /** Go over the next item, if there is one. */
    method Next() returns (ok: bool)
      requires At()
      modifies this`node, this`k, this`item
      ensures At() && (ok <==> old(After()) != [])
      ensures ok ==> After() == old(After())[1..] && Before() == old(Before()) + [old(After())[0]] &&
                     item == Some(old(After())[0])
      ensures !ok ==> Before() == old(Before()) && After() == old(After())
    {
      hide Linked, Leads, ItemsBefore, ItemsAfter, Occupied, Left, Right, Mid;
      ok := Deref();
      if ok {
        ghost var m, root := btree.nodes, btree.root;
        StepBack(m, root, node, k + 1);
        k := k + 1;
        if btree.nodes[node].depth > 0 {
          ToBranchBegin();
        } else {
          LeafMid(m, root, node, k);
        }
      }
    }

    /** Go back over the item before, if there is one. */
    method Prev() returns (ok: bool)
      requires At()
      modifies this`node, this`k, this`item
      ensures At() && (ok <==> old(Before()) != [])
      ensures ok ==> item.Some? && old(Before()) == Before() + [item.value] && After() == [item.value] + old(After())
      ensures !ok ==> Before() == old(Before()) && After() == old(After()) && node == old(node) && k == old(k)
    {
      hide Linked, Leads, ItemsBefore, ItemsAfter, Occupied, Left, Right, Mid;
      ghost var m, root := btree.nodes, btree.root;
      LinkedFacts(m, root, NULL);
      if btree.nodes[node].depth > 0 {
        ToBranchEnd();
        LeafFull(m, root, node);
        LeafMid(m, root, node, k);
      } else if k == 0 {
        LeafMid(m, root, node, k);
        var node0, k0 := node, k;
        while k == 0
          invariant At() && btree.nodes == m && btree.root == root && item == old(item)
          invariant Left(m, root, node, k) == old(Before()) && Mid(m, node, k) + Right(m, root, node, k) == old(After())
          decreases m[root].depth - m[node].depth
        {
          LinkedFacts(m, root, NULL);
          RootFacts(m, root, NULL, node);
          if btree.nodes[node].parent == NULL {
            FirstItem(m, root);
            node, k := node0, k0;
            return false;
          }
          ParentFacts(m, root, NULL, node);
          RootFacts(m, root, NULL, m[node].parent);
          BranchBegin(m, root, m[node].parent, m[node].k);
          node, k := btree.nodes[node].parent, btree.nodes[node].k;
        }
      } else {
        LeafMid(m, root, node, k);
      }
      StepBack(m, root, node, k);
      k := k - 1;
      item := Some(btree.nodes[node].item[k]);
      return true;
    }

    /** Insert an item at the position; it comes before whatever the iterator was at. */
    method InsertAt(x: T)
      requires At()
      modifies this, btree
      ensures btree == old(btree) && btree.Valid() && item == Some(x) && node == NULL
      ensures Contents(btree.nodes, btree.root) == old(Before()) + [x] + old(After())
    {
      hide Linked, Leads, ItemsBefore, ItemsAfter, Occupied, Contents, Pending, Items, Inner, Outer, Ready;
      item := Some(x);
      if btree.nodes[node].depth > 0 {
        ToBranchEnd();
      }
      ghost var m, root := btree.nodes, btree.root;
      PositionSplits(m, root, node, k);
      ReadyAtLeaf(m, root, node, k, x);
      btree.InsertUp(x, NULL, node, k);
      btree.count := btree.count + 1;
      node := NULL;
    }

    /** Remove the item at the position, if there is one. */
    method RemoveAt() returns (ok: bool)
      requires At()
      modifies this, btree
      ensures btree == old(btree) && btree.Valid() && (ok <==> old(After()) != [])
      ensures ok ==> Contents(btree.nodes, btree.root) == old(Before()) + old(After())[1..]
      ensures ok ==> node == NULL && item == Some(old(After())[0])
      ensures !ok ==> At() && Before() == old(Before()) && After() == old(After()) && Contents(btree.nodes,
          btree.root) == old(Contents(btree.nodes, btree.root))
    {
      hide Linked, Leads, ItemsBefore, ItemsAfter, Occupied, Contents, Left, Right, Mid, Leftmost;
      ok := Deref();
      if !ok {
        return;
      }
      PositionSplits(btree.nodes, btree.root, node, k);
      if btree.nodes[node].depth == 0 {
        RemoveFromLeaf();
      } else {
        RemoveFromInner();
      }
      btree.count := btree.count - 1;
      node := NULL;
    }

    method RemoveFromLeaf()
      requires At() && btree.nodes[node].depth == 0 && k < |btree.nodes[node].item|
      modifies btree`nodes, btree`root
      ensures btree.Addresses() && Linked(btree.nodes, btree.root, NULL) && Occupied(btree.nodes, btree.root, NULL)
      ensures btree.root in btree.nodes && old(After()) != []
      ensures Contents(btree.nodes, btree.root) == old(Before()) + old(After())[1..]
    {
      hide Linked, Leads, ItemsBefore, ItemsAfter, Occupied, Contents;
      ghost var m, root := btree.nodes, btree.root;
      LinkedFacts(m, root, NULL);
      btree.NodeRemoveLeafItem(node, k);
      LeafItemRemoved(m, root, btree.nodes, node, k);
      RemovedOccupied(m, root, btree.nodes, node, node, Without(m[node].item, k));
      RootFacts(btree.nodes, root, NULL, node);
      if |btree.nodes[node].item| < MIN && btree.nodes[node].parent != NULL {
        btree.RemoveUp(node);
      } else {
        FewInRootOnly(btree.nodes, root, node);
      }
    }

    /** An item of an inner node is replaced by its successor, which is removed from its leaf. */
    method RemoveFromInner()
      requires At() && btree.nodes[node].depth > 0 && k < |btree.nodes[node].item|
      modifies this`node, this`k, btree`nodes, btree`root
      ensures btree.Addresses() && Linked(btree.nodes, btree.root, NULL) && Occupied(btree.nodes, btree.root, NULL)
      ensures btree.root in btree.nodes && old(After()) != []
      ensures Contents(btree.nodes, btree.root) == old(Before()) + old(After())[1..]
    {
      hide Linked, Leads, ItemsBefore, ItemsAfter, Occupied, Contents, Left, Right, Mid, Leftmost;
      ghost var m, root := btree.nodes, btree.root;
      LinkedFacts(m, root, NULL);
      var p, k0 := node, k;
      InnerNode(m, root, p, k0);
      k := k + 1;
      ToBranchBegin();
      var s := node;
      LeafFull(m, root, s);
      btree.nodes := btree.nodes[p := btree.nodes[p].(item := btree.nodes[p].item[k0 := btree.nodes[s].item[0]])];
      ghost var m1 := btree.nodes;
      btree.NodeRemoveLeafItem(s, 0);
      WithoutFirst(m1[s].item);
      SuccessorRemoved(m, root, m1, p, k0, s, btree.nodes);
      ReplacedOccupied(m, root, m1, p, k0, m[s].item[0]);
      RemovedOccupied(m1, root, btree.nodes, s, s, Without(m1[s].item, 0));
      btree.RemoveUp(s);
    }
  }

  /** Only a root without branches can be empty. */
  lemma EmptyLeaf<T>(m: Memory<T>, root: Id, p: Id, k: nat)
    requires Linked(m, root, NULL) && p in m && Leads(m, p) && m[p].depth == 0 && m[p].item == [] && k == 0
    requires Occupied(m, root, NULL)
    ensures Contents(m, root) == []
  {
    LinkedFacts(m, root, NULL);
    if p != root {
      LeafFull(m, root, p);
    }
    NodeItems(m, map[], p, 0);
  }

  lemma LeafFull<T>(m: Memory<T>, root: Id, s: Id)
    requires Linked(m, root, NULL) && Occupied(m, root, NULL) && s in m && s != root
    ensures |m[s].item| >= MIN
  {
  }

  lemma LeftmostIsLeaf<T>(m: Memory<T>, s: Id)
    ensures Leftmost(m, s, 0) == s
  {
  }

  lemma ReadyAtLeaf<T>(m: Memory<T>, root: Id, p: Id, k: nat, x: T)
    requires Linked(m, root, NULL) && p in m && Leads(m, p) && k <= |m[p].item| && m[p].depth == 0
    ensures Ready(m, root, p, k, NULL)
    ensures Items(m, map[p := Pending(m, p, k, x, NULL)], root, m[root].depth) ==
            ItemsBefore(m, root, p, k) + [x] + ItemsAfter(m, root, p, k)
  {
    LinkedFacts(m, root, NULL);
    assert Ready(m, root, p, k, NULL);
    hide Linked, Leads, Left, Right, Inner, Outer, Items, Woven, Pending, Ready;
    PendingParts(m, p, k, x, NULL);
    Zoom(m, root, p, k, [x]);
    LeafMid(m, root, p, k);
  }

  /** Only a root may be left with few items. */
  lemma FewInRootOnly<T>(m: Memory<T>, root: Id, p: Id)
    requires Linked(m, root, NULL) && Occupied(m, root, p) && p in m && m[p].depth == 0
    requires |m[p].item| >= MIN || m[p].parent == NULL
    ensures Occupied(m, root, NULL)
  {
    LinkedFacts(m, root, NULL);
    RootFacts(m, root, NULL, p);
  }

  lemma RemovedOccupied<T>(m: Memory<T>, root: Id, m': Memory<T>, p: Id, except: Id, it: seq<T>)
    requires Occupied(m, root, NULL) && p in m && NULL !in m && except == p && |it| + 1 == |m[p].item|
    requires m' == m[p := m[p].(item := it)]
    ensures Occupied(m', root, except) && p in m' && (p != root ==> |m'[p].item| >= MIN - 1) && m'.Keys == m.Keys
    ensures root in m ==> m'[root].depth == m[root].depth
  {
  }

  lemma ReplacedOccupied<T>(m: Memory<T>, root: Id, m': Memory<T>, p: Id, k: nat, e: T)
    requires Occupied(m, root, NULL) && p in m && k < |m[p].item| && m' == m[p := m[p].(item := m[p].item[k := e])]
    ensures Occupied(m', root, NULL) && m'.Keys == m.Keys
  {
  }

  lemma InnerNode<T>(m: Memory<T>, root: Id, p: Id, k: nat)
    requires Linked(m, root, NULL) && p in m && Leads(m, p) && m[p].depth > 0 && k < |m[p].item|
    ensures k + 1 < |m[p].branch| && p != NULL
  {
  }

  lemma WithoutFirst<T>(it: seq<T>)
    requires it != []
    ensures Without(it, 0) == it[1..]
  {
  }
}
