/** The B-tree object and its iterators.  Nodes live in a memory; a node's item and branch arrays
are lists as long as its count says. */
module Btree {
  import opened BtreeMemory
  import opened BtreeInsertion
  import opened BtreeSplitting
  import opened BtreeRemoval
  import opened BtreeRebalance
  import opened Orders

  /** No node has too many items, and no node but the root and the one excepted too few. */
  ghost predicate Occupied<T>(m: Memory<T>, root: Id, except: Id) {
    && (forall x | x in m :: |m[x].item| <= MAX && (x != root && x != except ==> |m[x].item| >= MIN))
    && (root in m && m[root].depth > 0 && root != except ==> |m[root].item| > 0)
  }

  class BTree<T> {
    var nodes: Memory<T>
    var root: Id
    var count: nat
    var nextId: Id  // every address handed out so far is lower

    ghost predicate Addresses()
      reads this
    {
      nextId > NULL && forall x | x in nodes :: x < nextId
    }

    /** All leaves at one depth, between MIN and MAX items in every node but the root, and every
        node where its parent says it is. */
    ghost predicate Valid()
      reads this
    {
      Addresses() && Linked(nodes, root, NULL) && Occupied(nodes, root, NULL) && count == |Contents(nodes, root)|
    }

    constructor ()
      ensures Valid() && Contents(nodes, root) == []
    {
      var leaf: Node<T> := Node(NULL, 0, 0, [], []);
      nodes, root, count, nextId := map[1 := leaf], 1, 0, 2;
    }

    method NodeAlloc() returns (r: Id)
      requires Addresses()
      modifies this`nextId
      ensures r !in nodes && r != NULL && r >= old(nextId) && nextId > r
    {
      r := nextId;
      nextId := nextId + 1;
    }

    /** Set parent and k of the branches of p from index from up to to. */
    method AdoptBranches(p: Id, from: nat, to: nat)
      requires p in nodes && from <= to <= |nodes[p].branch|
      requires forall i | from <= i < to :: nodes[p].branch[i] in nodes
      requires Distinct(nodes[p].branch)
      modifies this`nodes
      ensures Adopted(old(nodes), nodes, p, from, to)
    {
      ghost var m := nodes;
      var i := from;
      while i < to
        invariant from <= i <= to && Adopted(m, nodes, p, from, i)
      {
        ghost var m1 := nodes;
        var c := nodes[p].branch[i];
        assert Same(m, m1, p) && Same(m, m1, c);
        nodes := nodes[c := nodes[c].(parent := p, k := i)];
        AdoptOne(m, m1, nodes, p, from, i);
        i := i + 1;
      }
    }

    /** Insert item x and right branch xr into node p, which has room, at position k. */
    method NodeInsert(x: T, xr: Id, p: Id, k: nat)
      requires p in nodes && k <= |nodes[p].item| && (nodes[p].depth > 0 ==> k < |nodes[p].branch|)
      requires var b := RowBranches(nodes[p], xr, k); Distinct(b) && forall i | k < i < |b| :: b[i] in nodes
      modifies this`nodes
      ensures var n := WithItem(old(nodes)[p], x, xr, k);
              Adopted(old(nodes)[p := n], nodes, p, if n.depth == 0 then 0 else k + 1, |n.branch|)
    {
      var n := nodes[p];
      nodes := nodes[p := n.(item := n.item[..k] + [x] + n.item[k..],
                             branch := if n.depth == 0 then [] else n.branch[..k + 1] + [xr] + n.branch[k + 1..])];
      if n.depth > 0 {
        AdoptBranches(p, k + 1, |nodes[p].branch|);
      } else {
        AdoptedNone(nodes, p);
      }
    }

    /** Insert item x and right branch xr into the full node p at position k, splitting it in p and
        a new node with the median between them. */
    method NodeSplit(x: T, xr: Id, p: Id, k: nat) returns (x': T, r: Id)
      requires Addresses() && Ready(nodes, root, p, k, xr) && |nodes[p].item| == MAX
      modifies this`nodes, this`nextId
      ensures Split(old(nodes), nodes, p, k, x, xr, x', r) && Addresses()
    {
      hide Ready, Halved, Split, Sided, Adopted, WithItem, LeftHalf;
      hide RightHalf, RowBranches, RowItems, Linked, Leads, Same, Finished, Distinct;
      ghost var m := nodes;
      ReadyFacts(m, root, p, k, xr);
      RowFacts(m, root, p, k, xr);
      var split := SplitPoint(k);
      r := NodeAlloc();
      Halve(p, r, split, xr);
      ghost var m3 := nodes;
      HalvedFacts(m, m3, p, r, split);
      if k <= MIN {
        LeftRow(m, root, m3, p, k, x, xr, r);
        NodeInsert(x, xr, p, k);
        SidedLeft(m, root, m3, nodes, p, k, x, xr, r);
      } else {
        RightRow(m, root, m3, p, k, x, xr, r);
        NodeInsert(x, xr, r, k - split);
        SidedRight(m, root, m3, nodes, p, k, x, xr, r);
      }
      RowsSize(m[p], x, xr, k);
      SidedFacts(m, root, nodes, p, k, x, xr, r);
      SplitDone(m, nodes, p, k, x, xr, r);
      x' := FinishSplit(p, r);
      SplitAddresses(m, nodes, p, k, x, xr, x', r, nextId);
    }

    /** The new node r takes over the items of p from split on. */
    method Halve(p: Id, r: Id, split: nat, ghost xr: Id)
      requires Linked(nodes, root, xr) && p in nodes && Full(nodes[p], 0) && split <= MIN + 1 && r !in nodes
      requires r != NULL
      modifies this`nodes
      ensures Halved(old(nodes), nodes, p, r, split)
    {
      hide Full, Halved, Adopted, LeftHalf, RightHalf, Linked, Leads, Same, Distinct;
      ghost var m := nodes;
      FullFacts(nodes[p], 0);
      HalfFacts(nodes, root, xr, p, split);
      var l := nodes[p];
      var right := if l.depth == 0 then [] else [NULL] + l.branch[split + 1..];
      nodes := nodes[r := Node(l.parent, 0, l.depth, l.item[split..], right)];
      if l.depth > 0 {
        AdoptBranches(r, 1, |nodes[r].branch|);
      } else {
        AdoptedNone(nodes, r);
      }
      HalvedSteps(m, root, xr, nodes, p, r, split);
      nodes := nodes[p := LeftHalf(nodes[p], split)];
    }

    /** The rightmost branch of p goes to r, its rightmost item out. */
    method FinishSplit(p: Id, r: Id) returns (x': T)
      requires p in nodes && r in nodes && p != r && |nodes[p].item| == MIN + 1
      requires nodes[p].depth > 0 ==> |nodes[p].branch| == MIN + 2 && |nodes[r].branch| > 0
      requires nodes[p].depth > 0 ==> nodes[p].branch[MIN + 1] in nodes && nodes[p].branch[MIN + 1] !in {p, r}
      requires nodes[p].depth == 0 ==> nodes[p].branch == []
      modifies this`nodes
      ensures nodes == Finished(old(nodes), p, r) && x' == old(nodes[p].item[MIN])
    {
      var n := |nodes[p].item|;
      if nodes[p].depth > 0 {
        var c := nodes[p].branch[n];
        nodes := nodes[r := nodes[r].(branch := nodes[r].branch[0 := c])];
        nodes := nodes[c := nodes[c].(parent := r, k := 0)];
        nodes := nodes[p := nodes[p].(branch := nodes[p].branch[..n])];
      }
      x' := nodes[p].item[n - 1];
      nodes := nodes[p := nodes[p].(item := nodes[p].item[..n - 1])];
    }

    /** Put a new root above the old one, whose other half is r. */
    method GrowRoot(x: T, r: Id)
      requires Addresses() && Linked(nodes, root, r) && r in nodes && nodes[r].depth == nodes[root].depth
      modifies this`nodes, this`root, this`nextId
      ensures Grown(old(nodes), old(root), nodes, root, x, r) && Addresses()
    {
      LinkedFacts(nodes, root, r);
      var p := NodeAlloc();
      nodes := nodes[p := Node(NULL, 0, nodes[root].depth + 1, [x], [root, r])];
      nodes := nodes[root := nodes[root].(parent := p, k := 0)];
      nodes := nodes[r := nodes[r].(parent := p, k := 1)];
      root := p;
    }

    /** Insert x and xr at position k of node p; while a node is full, split it and go on with
        its parent.  With no parent, make a new root. */
    method InsertUp(x0: T, xr0: Id, p0: Id, k0: nat)
      requires Addresses() && Ready(nodes, root, p0, k0, xr0) && Occupied(nodes, root, NULL)
      modifies this`nodes, this`root, this`nextId
      ensures Addresses() && Linked(nodes, root, NULL) && Occupied(nodes, root, NULL)
      ensures Contents(nodes, root) == old(Items(nodes, map[p0 := Pending(nodes, p0, k0, x0, xr0)], root,
                                                 nodes[root].depth))
    {
      hide Ready, Linked, Occupied, Items, Pending, Split, Inserted;
      hide Leads, Same, Grown, RowItems, RowBranches, Contents, Woven;
      var x, xr, p := x0, xr0, p0;
      var k: nat := k0;
      ReadyFacts(nodes, root, p, k, xr);
      LinkedFacts(nodes, root, xr);
      ghost var target := Items(nodes, map[p := Pending(nodes, p, k, x, xr)], root, nodes[root].depth);
      while |nodes[p].item| >= MAX
        invariant root == old(root) && Addresses() && Ready(nodes, root, p, k, xr) && Occupied(nodes, root, NULL)
        invariant Linked(nodes, root, xr) && root in nodes && p in nodes && p != xr && Leads(nodes, p)
        invariant k <= |nodes[p].item|
        invariant target == Items(nodes, map[p := Pending(nodes, p, k, x, xr)], root, nodes[root].depth)
        decreases nodes[root].depth - nodes[p].depth
      {
        ghost var m, kp, xp, xrp := nodes, k, x, xr;
        RootFacts(m, root, xr, p);
        LinkedFacts(m, root, xr);
        AtMost(m, root, p);
        x, xr := NodeSplit(x, xr, p, k);
        SplitFacts(m, root, nodes, p, kp, xp, xrp, x, xr);
        SplitLinked(m, root, nodes, p, kp, xp, xrp, x, xr);
        SplitOccupied(m, root, nodes, p, kp, xp, xrp, x, xr);
        if nodes[p].parent == NULL {
          SplitHere(m, root, nodes, p, kp, xp, xrp, x, xr);
          GivenItems(m, map[p := Pending(m, p, kp, xp, xrp)], root, m[root].depth);
          ghost var m2 := nodes;
          GrowRoot(x, xr);
          GrownFacts(m2, p, nodes, root, x, xr);
          GrownLinked(m2, p, nodes, root, x, xr);
          GrownItems(m2, p, nodes, root, x, xr);
          GrownOccupied(m2, p, nodes, root, x, xr);
          return;
        }
        SplitUp(m, root, nodes, p, kp, xp, xrp, x, xr);
        SplitRoot(m, nodes, root, p);
        p, k := nodes[p].parent, nodes[p].k;
        ReadyFacts(nodes, root, p, k, xr);
        RootFacts(nodes, root, xr, p);
      }
      ghost var m := nodes;
      RowsOfReady(m, root, p, k, x, xr);
      NodeInsert(x, xr, p, k);
      IsInserted(m, nodes, p, k, x, xr);
      InsertedFacts(m, root, nodes, p, k, x, xr);
      InsertedLinked(m, root, nodes, p, k, x, xr);
      InsertedItems(m, root, nodes, p, k, x, xr);
      InsertedOccupied(m, root, nodes, p, k, x, xr);
    }

    /** Remove item k of a leaf. */
    method NodeRemoveLeafItem(p: Id, k: nat)
      requires p in nodes && k < |nodes[p].item|
      modifies this`nodes
      ensures nodes == old(nodes)[p := old(nodes)[p].(item := Without(old(nodes)[p].item, k))]
    {
      nodes := nodes[p := nodes[p].(item := Without(nodes[p].item, k))];
    }

    // ---------- Restoring a node that has too few items ----------

    /** The rows of MoveLeft, before any branch is told. */
    method ShiftLeft(q: Id, k: nat)
      requires Pair(nodes, root, q, k) && nodes[q].branch[k + 1] in nodes && nodes[nodes[q].branch[k + 1]].item != []
      requires nodes[q].branch[k] in nodes && k < |nodes[q].item|
      requires var n := |nodes[nodes[q].branch[k]].item| + 1;
               n < |PairItems(nodes, q, k)| && (PairBranches(nodes, q, k) != [] ==>
                                                  n + 1 <= |PairBranches(nodes, q, k)|)
      modifies this`nodes
      ensures nodes == Divided(old(nodes), q, k, |old(nodes)[old(nodes)[q].branch[k]].item| + 1)
    {
      hide Pair, Linked, Leads, PairItems, PairBranches, Divided;
      ghost var m := nodes;
      PairFacts(m, root, q, k);
      LeftNumbers(m, root, q, k);
      var l, r := nodes[q].branch[k], nodes[q].branch[k + 1];
      nodes := nodes[l := nodes[l].(item := nodes[l].item + [nodes[q].item[k]])];
      nodes := nodes[q := nodes[q].(item := nodes[q].item[k := nodes[r].item[0]])];
      nodes := nodes[r := nodes[r].(item := nodes[r].item[1..])];
      if nodes[r].depth > 0 {
        var mv := nodes[r].branch[0];
        nodes := nodes[l := nodes[l].(branch := nodes[l].branch + [mv])];
        nodes := nodes[r := nodes[r].(branch := nodes[r].branch[1..])];
      }
      DividedIs(m, root, q, k, |m[l].item| + 1, nodes);
    }

    /** The first item of branch k + 1 becomes the divider, which goes to the end of branch k. */
    method MoveLeft(q: Id, k: nat)
      requires Pair(nodes, root, q, k) && nodes[q].branch[k + 1] in nodes && nodes[nodes[q].branch[k + 1]].item != []
      modifies this`nodes
      ensures k < |old(nodes)[q].branch| && old(nodes)[q].branch[k] in old(nodes)
      ensures Redivided(old(nodes), nodes, q, k, |old(nodes)[old(nodes)[q].branch[k]].item| + 1)
    {
      hide Pair, Linked, Leads, PairItems, PairBranches, Redivided, Adopted, Divided, Telling, Distinct;
      ghost var m := nodes;
      PairFacts(m, root, q, k);
      LeftNumbers(m, root, q, k);
      var l, r := nodes[q].branch[k], nodes[q].branch[k + 1];
      ghost var n := |m[l].item| + 1;
      ShiftLeft(q, k);
      DividedFacts(m, root, q, k, n);
      if nodes[r].depth > 0 {
        var at := |nodes[l].branch| - 1;
        var mv := nodes[l].branch[at];
        PairKid(m, root, q, k, n);
        nodes := nodes[mv := nodes[mv].(parent := l, k := at)];
      }
      ghost var m2 := nodes;
      RightKids(m, root, q, k, n, nodes[r].branch);
      AdoptBranches(r, 0, |nodes[r].branch|);
      IsTelling(m, root, q, k, n, m2, nodes);
      Told(m, root, q, k, n, m2, nodes);
    }

    /** The rows of MoveRight, before any branch is told. */
    method ShiftRight(q: Id, k: nat)
      requires Pair(nodes, root, q, k) && nodes[q].branch[k] in nodes && nodes[nodes[q].branch[k]].item != []
      requires nodes[q].branch[k + 1] in nodes && k < |nodes[q].item|
      requires var n := |nodes[nodes[q].branch[k]].item| - 1;
               n < |PairItems(nodes, q, k)| && (PairBranches(nodes, q, k) != [] ==>
                                                  n + 1 <= |PairBranches(nodes, q, k)|)
      modifies this`nodes
      ensures nodes == Divided(old(nodes), q, k, |old(nodes)[old(nodes)[q].branch[k]].item| - 1)
    {
      hide Pair, Linked, Leads, PairItems, PairBranches, Divided;
      ghost var m := nodes;
      PairFacts(m, root, q, k);
      RightNumbers(m, root, q, k);
      var l, r := nodes[q].branch[k], nodes[q].branch[k + 1];
      var last := |nodes[l].item| - 1;
      nodes := nodes[r := nodes[r].(item := [nodes[q].item[k]] + nodes[r].item)];
      nodes := nodes[q := nodes[q].(item := nodes[q].item[k := nodes[l].item[last]])];
      nodes := nodes[l := nodes[l].(item := nodes[l].item[..last])];
      if nodes[r].depth > 0 {
        nodes := nodes[r := nodes[r].(branch := [nodes[l].branch[last + 1]] + nodes[r].branch)];
        nodes := nodes[l := nodes[l].(branch := nodes[l].branch[..last + 1])];
      }
      DividedIs(m, root, q, k, last, nodes);
    }

    /** The last item of branch k becomes the divider, which goes to the front of branch k + 1. */
    method MoveRight(q: Id, k: nat)
      requires Pair(nodes, root, q, k) && nodes[q].branch[k] in nodes && nodes[nodes[q].branch[k]].item != []
      modifies this`nodes
      ensures Redivided(old(nodes), nodes, q, k, |old(nodes)[old(nodes)[q].branch[k]].item| - 1)
    {
      hide Pair, Linked, Leads, PairItems, PairBranches, Redivided, Adopted, Divided, Telling, Distinct;
      ghost var m := nodes;
      PairFacts(m, root, q, k);
      RightNumbers(m, root, q, k);
      var l, r := nodes[q].branch[k], nodes[q].branch[k + 1];
      ghost var n := |m[l].item| - 1;
      ShiftRight(q, k);
      DividedFacts(m, root, q, k, n);
      ghost var m2 := nodes;
      RightKids(m, root, q, k, n, nodes[r].branch);
      AdoptBranches(r, 0, |nodes[r].branch|);
      IsTelling(m, root, q, k, n, m2, nodes);
      Told(m, root, q, k, n, m2, nodes);
    }

    /** Branch k takes over the divider and all of branch k + 1, which goes. */
    method Combine(q: Id, k: nat)
      requires Pair(nodes, root, q, k)
      modifies this`nodes
      ensures Combined(old(nodes), nodes, q, k)
    {
      ghost var m := nodes;
      PairFacts(m, root, q, k);
      PairIs(m, q, k);
      PairDistinct(m, root, q, k);
      ShortRow(m, root, q, k);
      hide Pair, Linked, Leads, PairItems, PairBranches, Combined, Adopted, Combining, Without;
      var l, r := nodes[q].branch[k], nodes[q].branch[k + 1];
      var from := |nodes[l].branch|;
      nodes := nodes[l := nodes[l].(item := nodes[l].item + [nodes[q].item[k]] + nodes[r].item,
                                    branch := nodes[l].branch + nodes[r].branch)];
      AllKids(m, root, q, k);
      AdoptBranches(l, from, |nodes[l].branch|);
      ghost var m2 := nodes;
      CombineHalf(m, root, q, k, m2);
      nodes := nodes[q := nodes[q].(item := Without(nodes[q].item, k), branch := Without(nodes[q].branch, k + 1))];
      AdoptBranches(q, k + 1, |nodes[q].branch|);
      IsCombining(m, root, q, k, m2, nodes);
      CombiningDone(m, root, q, k, m2, nodes);
      nodes := nodes - {r};
    }

    /** Branch k of q has one item less than it should.  Take one from a sibling that can spare
        it, or make one node of the two; then q may have one less than it should. */
    method NodeRestore(q: Id, k: nat)
      requires Linked(nodes, root, NULL) && q in nodes && k < |nodes[q].branch| && nodes[q].branch[k] in nodes
      requires Occupied(nodes, root, nodes[q].branch[k]) && |nodes[nodes[q].branch[k]].item| == MIN - 1
      modifies this`nodes
      ensures Linked(nodes, root, NULL) && root in nodes && root in old(nodes)
      ensures Contents(nodes, root) == old(Contents(nodes, root))
      ensures Occupied(nodes, root, q) && q in nodes && nodes[q].depth == old(nodes)[q].depth > 0
      ensures q != root ==> |nodes[q].item| >= MIN - 1
      ensures nodes.Keys <= old(nodes).Keys && nodes[root].depth == old(nodes)[root].depth
    {
      hide Linked, Pair, Redivided, Combined, Leads, Contents, PairItems, PairBranches, Occupied;
      ghost var m := nodes;
      RestoreFacts(m, root, q, k);
      if k == 0 {
        ChoosePair(m, root, q, 0);
        if |nodes[nodes[q].branch[1]].item| > MIN {
          MoveLeft(q, 0);
          MovedFine(m, root, nodes, q, 0, MIN, m[q].branch[k]);
        } else {
          Combine(q, 0);
          CombinedFine(m, root, nodes, q, 0, m[q].branch[k]);
        }
      } else if k == |nodes[q].item| {
        ChoosePair(m, root, q, k - 1);
        if |nodes[nodes[q].branch[k - 1]].item| > MIN {
          MoveRight(q, k - 1);
          MovedFine(m, root, nodes, q, k - 1, |m[m[q].branch[k - 1]].item| - 1, m[q].branch[k]);
        } else {
          Combine(q, k - 1);
          CombinedFine(m, root, nodes, q, k - 1, m[q].branch[k]);
        }
      } else {
        ChoosePair(m, root, q, k - 1);
        ChoosePair(m, root, q, k);
        if |nodes[nodes[q].branch[k - 1]].item| > MIN {
          MoveRight(q, k - 1);
          MovedFine(m, root, nodes, q, k - 1, |m[m[q].branch[k - 1]].item| - 1, m[q].branch[k]);
        } else if |nodes[nodes[q].branch[k + 1]].item| > MIN {
          MoveLeft(q, k);
          MovedFine(m, root, nodes, q, k, MIN, m[q].branch[k]);
        } else {
          Combine(q, k - 1);
          CombinedFine(m, root, nodes, q, k - 1, m[q].branch[k]);
        }
      }
    }

    /** While a node has too few items, restore it and go on with its parent; an empty root goes. */
    method RemoveUp(p0: Id)
      requires Addresses() && Linked(nodes, root, NULL) && p0 in nodes && Occupied(nodes, root, p0)
      requires p0 != root ==> |nodes[p0].item| >= MIN - 1
      requires p0 == root ==> nodes[root].depth > 0
      modifies this`nodes, this`root
      ensures Addresses() && Linked(nodes, root, NULL) && Occupied(nodes, root, NULL)
      ensures root in nodes && old(root) in old(nodes) && Contents(nodes, root) == old(Contents(nodes, root))
    {
      hide Linked, Occupied, Leads, Contents, Collapsed;
      LinkedFacts(nodes, root, NULL);
      var p := p0;
      while true
        invariant Addresses() && root == old(root) && Linked(nodes, root, NULL) && root in nodes && p in nodes
        invariant Occupied(nodes, root, p) && (p != root ==> |nodes[p].item| >= MIN - 1)
        invariant p == root ==> nodes[root].depth > 0
        invariant Contents(nodes, root) == old(Contents(nodes, root)) && old(root) in old(nodes)
        decreases nodes[root].depth - nodes[p].depth
      {
        if |nodes[p].item| >= MIN {
          EnoughItems(nodes, root, p);
          return;
        }
        LinkedFacts(nodes, root, NULL);
        RootFacts(nodes, root, NULL, p);
        if nodes[p].parent == NULL {
          break;
        }
        ParentFacts(nodes, root, NULL, p);
        var q, k := nodes[p].parent, nodes[p].k;
        RootFacts(nodes, root, NULL, q);
        NodeRestore(q, k);
        p := q;
      }
      if nodes[root].item == [] {
        ghost var m, oldRoot := nodes, root;
        OneBranch(m, root);
        var c := nodes[root].branch[0];
        nodes := nodes - {root};
        nodes := nodes[c := nodes[c].(parent := NULL)];
        root := c;
        CollapsedFacts(m, oldRoot, nodes, c);
        CollapsedLinked(m, oldRoot, nodes, c);
        CollapsedItems(m, oldRoot, nodes, c);
        CollapsedOccupied(m, oldRoot, nodes, c);
      } else {
        RootOccupied(nodes, root);
      }
    }
  }

  lemma RestoreFacts<T>(m: Memory<T>, root: Id, q: Id, k: nat)
    requires Linked(m, root, NULL) && q in m && k < |m[q].branch| && m[q].branch[k] in m
    requires Occupied(m, root, m[q].branch[k])
    ensures Leads(m, q) && m[q].depth > 0 && |m[q].branch| == |m[q].item| + 1 && |m[q].item| > 0
    ensures q != m[q].branch[k] && q != root ==> |m[q].item| >= MIN
    ensures root in m && NULL !in m
    ensures forall y | y in m :: |m[y].item| <= MAX
  {
    assert Leads(m, q);
    BranchFacts(m, root, NULL, q, k);
  }

  lemma ChoosePair<T>(m: Memory<T>, root: Id, q: Id, j: nat)
    requires Linked(m, root, NULL) && q in m && Leads(m, q) && m[q].depth > 0 && j + 1 < |m[q].branch|
    ensures Pair(m, root, q, j) && m[q].branch[j] in m && m[q].branch[j + 1] in m && j < |m[q].item|
    ensures m[q].branch[j] != m[q].branch[j + 1]
    ensures |PairItems(m, q, j)| == |m[m[q].branch[j]].item| + 1 + |m[m[q].branch[j + 1]].item|
  {
    assert Pair(m, root, q, j);
    PairFacts(m, root, q, j);
  }

  /** After an item has moved, both nodes have enough. */
  lemma MovedFine<T>(m: Memory<T>, root: Id, m': Memory<T>, q: Id, j: nat, n: nat, x: Id)
    requires Pair(m, root, q, j) && Redivided(m, m', q, j, n) && Occupied(m, root, x)
    requires x == m[q].branch[j] || x == m[q].branch[j + 1]
    requires MIN <= n <= MAX && MIN <= |PairItems(m, q, j)| - n - 1 <= MAX
    ensures Linked(m', root, NULL) && root in m' && root in m && Contents(m', root) == Contents(m, root)
    ensures Occupied(m', root, q) && q in m' && m'[q].depth == m[q].depth > 0 && (q != root ==> |m'[q].item| >= MIN - 1)
    ensures m'.Keys <= m.Keys && m'[root].depth == m[root].depth
  {
    hide Linked, Pair, Redivided, Leads, PairItems, PairBranches;
    PairFacts(m, root, q, j);
    LinkedFacts(m, root, NULL);
    RedividedFacts(m, root, m', q, j, n);
    RedividedLinked(m, root, m', q, j, n);
    RedividedItems(m, root, m', q, j, n);
    var l, r := m[q].branch[j], m[q].branch[j + 1];
    forall y | y in m && y != q && y != l && y != r
      ensures m'[y].item == m[y].item && m'[y].depth == m[y].depth
    {
      assert Same(m, m', y);
    }
  }

  /** Two nodes of which one has too few items fit one node. */
  lemma CombinedFine<T>(m: Memory<T>, root: Id, m': Memory<T>, q: Id, j: nat, x: Id)
    requires Pair(m, root, q, j) && Combined(m, m', q, j) && Occupied(m, root, x) && x in m && |m[x].item| == MIN - 1
    requires (x == m[q].branch[j] && m[q].branch[j + 1] in m && |m[m[q].branch[j + 1]].item| <= MIN) ||
             (x == m[q].branch[j + 1] && m[q].branch[j] in m && |m[m[q].branch[j]].item| <= MIN)
    ensures Linked(m', root, NULL) && root in m' && root in m && Contents(m', root) == Contents(m, root)
    ensures Occupied(m', root, q) && q in m' && m'[q].depth == m[q].depth > 0 && (q != root ==> |m'[q].item| >= MIN - 1)
    ensures m'.Keys <= m.Keys && m'[root].depth == m[root].depth
  {
    hide Linked, Pair, Combined, Leads, PairItems, PairBranches;
    PairFacts(m, root, q, j);
    LinkedFacts(m, root, NULL);
    CombinedFacts(m, root, m', q, j);
    CombinedLinked(m, root, m', q, j);
    CombinedItems(m, root, m', q, j);
    var l, r := m[q].branch[j], m[q].branch[j + 1];
    forall y | y in m && y != q && y != l && y != r
      ensures m'[y].item == m[y].item && m'[y].depth == m[y].depth
    {
      assert Same(m, m', y);
    }
  }

  lemma EnoughItems<T>(m: Memory<T>, root: Id, p: Id)
    requires Occupied(m, root, p) && p in m && |m[p].item| >= MIN
    ensures Occupied(m, root, NULL)
  {
  }

  lemma RootOccupied<T>(m: Memory<T>, root: Id)
    requires Occupied(m, root, root) && root in m && m[root].item != []
    ensures Occupied(m, root, NULL)
  {
  }

  lemma OneBranch<T>(m: Memory<T>, root: Id)
    requires Linked(m, root, NULL) && m[root].depth > 0 && m[root].item == []
    ensures |m[root].branch| == 1 && m[root].branch == [m[root].branch[0]]
    ensures m[root].branch[0] in m && m[root].branch[0] != root
    ensures var c := m[root].branch[0]; Collapsed(m, root, (m - {root})[c := m[c].(parent := NULL)], c)
  {
    assert Leads(m, root);
    BranchFacts(m, root, NULL, root, 0);
  }

  lemma CollapsedOccupied<T>(m: Memory<T>, root: Id, m': Memory<T>, c: Id)
    requires Linked(m, root, NULL) && Collapsed(m, root, m', c) && Occupied(m, root, root)
    ensures Occupied(m', c, NULL)
  {
    CollapsedFacts(m, root, m', c);
  }

  lemma RightKids<T>(m: Memory<T>, root: Id, q: Id, k: nat, n: nat, t: seq<Id>)
    requires Pair(m, root, q, k) && m[q].branch[k] in m && m[q].branch[k + 1] in m
    requires PairBranches(m, q, k) == [] ==> t == []
    requires PairBranches(m, q, k) != [] ==> n + 1 <= |PairBranches(m, q, k)| && t == PairBranches(m, q, k)[n + 1..]
    ensures Distinct(t) && forall i | 0 <= i < |t| :: t[i] in m
  {
    PairDistinct(m, root, q, k);
    var b := PairBranches(m, q, k);
    hide Pair, PairBranches;
    forall i: nat | i < |t|
      ensures t[i] in m
    {
      PairKid(m, root, q, k, n + 1 + i);
    }
  }

  lemma AllKids<T>(m: Memory<T>, root: Id, q: Id, k: nat)
    requires Pair(m, root, q, k) && m[q].branch[k] in m && m[q].branch[k + 1] in m
    ensures var b := PairBranches(m, q, k); Distinct(b) && forall i | 0 <= i < |b| :: b[i] in m
  {
    PairDistinct(m, root, q, k);
    var b := PairBranches(m, q, k);
    hide Pair, PairBranches;
    forall i: nat | i < |b|
      ensures b[i] in m
    {
      PairKid(m, root, q, k, i);
    }
  }

  lemma IsTelling<T>(m: Memory<T>, root: Id, q: Id, k: nat, n: nat, m2: Memory<T>, m3: Memory<T>)
    requires Pair(m, root, q, k) && m[q].branch[k] in m && m[q].branch[k + 1] in m && k < |m[q].item|
    requires n < |PairItems(m, q, k)| && (PairBranches(m, q, k) != [] ==> n + 1 <= |PairBranches(m, q, k)|)
    requires var l, r, b, m1 := m[q].branch[k], m[q].branch[k + 1], PairBranches(m, q, k), Divided(m, q, k, n);
             && (n <= |m[l].item| - 1 || b == [] ==> m2 == m1)
             && (n > |m[l].item| - 1 && b != [] ==> n == |m[l].item| + 1 && n < |b| && b[n] in m1 &&
                                                    m2 == m1[b[n] := m1[b[n]].(parent := l, k := n)])
             && r in m2 && Adopted(m2, m3, r, 0, |m2[r].branch|)
    ensures Telling(m, root, q, k, n, m2, m3)
  {
    hide Pair, Divided, Adopted, PairItems, PairBranches;
  }

  /** After the first half of combining, q is as it was. */
  lemma CombineHalf<T>(m: Memory<T>, root: Id, q: Id, k: nat, m2: Memory<T>)
    requires Pair(m, root, q, k) && m[q].branch[k] in m && m[q].branch[k + 1] in m && k < |m[q].item|
    requires var l := m[q].branch[k];
             Adopted(m[l := m[l].(item := PairItems(m, q, k), branch := PairBranches(m, q, k))], m2, l, |m[l].branch|,
                     |PairBranches(m, q, k)|)
    ensures q in m2 && m2[q] == m[q] && m2.Keys == m.Keys
  {
    PairFacts(m, root, q, k);
    var l, b := m[q].branch[k], PairBranches(m, q, k);
    forall i: nat | i < |b|
      ensures b[i] != q
    {
      PairKid(m, root, q, k, i);
    }
    hide Pair, PairItems, PairBranches, Linked, Leads;
    assert !Among(b, |m[l].branch|, |b|, q);
  }

  lemma IsCombining<T>(m: Memory<T>, root: Id, q: Id, k: nat, m2: Memory<T>, m4: Memory<T>)
    requires Pair(m, root, q, k) && m[q].branch[k] in m && m[q].branch[k + 1] in m && k < |m[q].item|
    requires var l, it, b := m[q].branch[k], PairItems(m, q, k), PairBranches(m, q, k);
             Adopted(m[l := m[l].(item := it, branch := b)], m2, l, |m[l].branch|, |b|)
    requires q in m2 && m2[q] == m[q]
    requires var b' := Without(m[q].branch, k + 1);
             Adopted(m2[q := m[q].(item := Without(m[q].item, k), branch := b')], m4, q, k + 1, |b'|)
    ensures Combining(m, root, q, k, m2, m4)
  {
    PairFacts(m, root, q, k);
    hide Pair, Adopted, PairItems, PairBranches, Without;
  }

  lemma AtMost<T>(m: Memory<T>, root: Id, p: Id)
    requires Occupied(m, root, NULL) && p in m
    ensures |m[p].item| <= MAX
  {
  }

  lemma SplitOccupied<T>(m: Memory<T>, root: Id, m': Memory<T>, p: Id, k: nat, x: T, xr: Id, x': T, r: Id)
    requires Ready(m, root, p, k, xr) && Split(m, m', p, k, x, xr, x', r) && Occupied(m, root, NULL)
    ensures Occupied(m', root, NULL)
  {
    hide Ready, Split, RowItems, RowBranches, Leads;
    SplitFacts(m, root, m', p, k, x, xr, x', r);
  }

  lemma SplitRoot<T>(m: Memory<T>, m': Memory<T>, root: Id, p: Id)
    requires root in m && p in m && forall y | y in m && y != p :: Same(m, m', y)
    requires p in m' && m'[p].depth == m[p].depth
    ensures root in m' && m'[root].depth == m[root].depth
  {
    assert root == p || Same(m, m', root);
  }

  lemma GrownOccupied<T>(m: Memory<T>, root: Id, m': Memory<T>, newRoot: Id, x: T, r: Id)
    requires Linked(m, root, r) && Grown(m, root, m', newRoot, x, r) && Occupied(m, root, NULL)
    requires |m[root].item| == MIN
    ensures Occupied(m', newRoot, NULL)
  {
    GrownFacts(m, root, m', newRoot, x, r);
    hide Linked, Grown;
    forall y | y in m
      ensures m'[y].item == m[y].item
    {
      assert Same(m, m', y);
    }
  }

  lemma RowsOfReady<T>(m: Memory<T>, root: Id, p: Id, k: nat, x: T, xr: Id)
    requires Ready(m, root, p, k, xr)
    ensures p in m && k <= |m[p].item| && (m[p].depth > 0 ==> k < |m[p].branch|)
    ensures var b := RowBranches(m[p], xr, k); Distinct(b) && forall i | k < i < |b| :: b[i] in m
  {
    ReadyFacts(m, root, p, k, xr);
    RowDistinct(m, root, p, k, xr);
    RowKids(m, root, p, k, xr);
    var b := RowBranches(m[p], xr, k);
    hide Ready, RowBranches;
    assert forall i | 0 <= i < |b| :: b[i] in b;
  }

  lemma IsInserted<T>(m: Memory<T>, m': Memory<T>, p: Id, k: nat, x: T, xr: Id)
    requires p in m && Leads(m, p) && k <= |m[p].item|
    requires var n := WithItem(m[p], x, xr, k); Adopted(m[p := n], m', p, if n.depth == 0 then 0 else k + 1, |n.branch|)
    ensures Inserted(m, m', p, k, x, xr)
  {
    hide Adopted, RowItems, RowBranches;
  }

  lemma InsertedOccupied<T>(m: Memory<T>, root: Id, m': Memory<T>, p: Id, k: nat, x: T, xr: Id)
    requires Ready(m, root, p, k, xr) && Inserted(m, m', p, k, x, xr) && Occupied(m, root, NULL) && |m[p].item| < MAX
    ensures Occupied(m', root, NULL)
  {
    InsertedFacts(m, root, m', p, k, x, xr);
    ReadyFacts(m, root, p, k, xr);
    RowSize(m[p], x, xr, k);
    hide Ready, Inserted, RowItems, RowBranches, Leads;
    forall y | y in m && y != p
      ensures m'[y].item == m[y].item && m'[y].depth == m[y].depth
    {
      assert Same(m, m', y);
    }
  }

  lemma FullFacts<T>(n: Node<T>, k: nat)
    requires Full(n, k)
    ensures |n.item| == MAX && |n.branch| == if n.depth == 0 then 0 else MAX + 1
  {
  }

  lemma HalfFacts<T>(m: Memory<T>, root: Id, xr: Id, p: Id, s: nat)
    requires Linked(m, root, xr) && p in m && Full(m[p], 0) && s <= MIN + 1
    ensures s <= |m[p].item| && (m[p].depth > 0 ==> s < |m[p].branch|)
    ensures RightHalf(m[p], s) == Node(m[p].parent, 0, m[p].depth, m[p].item[s..],
                                       if m[p].depth == 0 then [] else [NULL] + m[p].branch[s + 1..])
    ensures m[p].depth > 0 ==>
              var h := [NULL] + m[p].branch[s + 1..]; Distinct(h) && forall i | 1 <= i < |h| :: h[i] in m
  {
    var b := m[p].branch;
    if m[p].depth > 0 {
      var h := [NULL] + b[s + 1..];
      forall i: nat | i < |b|
        ensures b[i] in m && b[i] != NULL && m[b[i]].k == i
      {
        BranchFacts(m, root, xr, p, i);
      }
      hide Linked;
      assert forall i | 1 <= i < |h| :: h[i] == b[i + s];
    }
  }

  lemma HalvedFacts<T>(m: Memory<T>, m3: Memory<T>, p: Id, r: Id, s: nat)
    requires Halved(m, m3, p, r, s)
    ensures m3.Keys == m.Keys + {r} && p in m && |m[p].item| == MAX
    ensures |m[p].branch| == (if m[p].depth == 0 then 0 else MAX + 1) && s <= MIN + 1
    ensures m3[p] == LeftHalf(m[p], s) && m3[r] == RightHalf(m[p], s)
    ensures |LeftHalf(m[p], s).item| == s && LeftHalf(m[p], s).depth == m[p].depth
    ensures |RightHalf(m[p], s).item| == MAX - s && RightHalf(m[p], s).depth == m[p].depth
    ensures m[p].depth > 0 ==> |LeftHalf(m[p], s).branch| == s + 1 && |RightHalf(m[p], s).branch| == MAX + 1 - s
  {
  }

  lemma LeftRow<T>(m: Memory<T>, root: Id, m3: Memory<T>, p: Id, k: nat, x: T, xr: Id, r: Id)
    requires Ready(m, root, p, k, xr) && |m[p].item| == MAX && k <= MIN && Halved(m, m3, p, r, MIN)
    ensures p in m3 && k <= |m3[p].item| && (m3[p].depth > 0 ==> k < |m3[p].branch|)
    ensures var b := RowBranches(m3[p], xr, k); Distinct(b) && forall i | k < i < |b| :: b[i] in m3
  {
    RowFacts(m, root, p, k, xr);
    RowsLeft(m[p], x, xr, k);
    var b, b3 := RowBranches(m[p], xr, k), RowBranches(m3[p], xr, k);
    assert b3 == WithItem(LeftHalf(m[p], MIN), x, xr, k).branch;
    assert forall i | 0 <= i < |b3| :: b3[i] == b[i];
  }

  lemma RightRow<T>(m: Memory<T>, root: Id, m3: Memory<T>, p: Id, k: nat, x: T, xr: Id, r: Id)
    requires Ready(m, root, p, k, xr) && |m[p].item| == MAX && k > MIN && Halved(m, m3, p, r, MIN + 1)
    ensures r in m3 && k - MIN - 1 <= |m3[r].item| && (m3[r].depth > 0 ==> k - MIN - 1 < |m3[r].branch|)
    ensures var b := RowBranches(m3[r], xr, k - MIN - 1); Distinct(b) && forall i | k - MIN - 1 < i < |b| :: b[i] in m3
  {
    RowFacts(m, root, p, k, xr);
    RowsRight(m[p], x, xr, k);
    var b, b3 := RowBranches(m[p], xr, k), RowBranches(m3[r], xr, k - MIN - 1);
    assert b3 == WithItem(RightHalf(m[p], MIN + 1), x, xr, k - MIN - 1).branch;
    assert m3[r].depth == m[p].depth && |m3[r].item| == MAX - MIN - 1 &&
           (m[p].depth > 0 ==> |m3[r].branch| == MAX - MIN);
    assert m3.Keys == m.Keys + {r};
    hide Ready, Halved, RowItems, RowBranches, RightHalf, WithItem, Linked, Leads, Full;
    if m[p].depth > 0 {
      assert forall i | 1 <= i < |b3| :: b3[i] == b[i + MIN + 1];
    }
  }

  lemma RowsSize<T>(n: Node<T>, x: T, xr: Id, k: nat)
    requires Full(n, k)
    ensures |RowItems(n, x, k)| == MAX + 1
  {
  }

  lemma SidedFacts<T>(m: Memory<T>, root: Id, m4: Memory<T>, p: Id, k: nat, x: T, xr: Id, r: Id)
    requires Ready(m, root, p, k, xr) && |m[p].item| == MAX && Sided(m, m4, p, k, x, xr, r)
    requires |RowItems(m[p], x, k)| == MAX + 1
    ensures p in m4 && r in m4 && p != r && m4[p].depth == m[p].depth && m4[p].item[MIN] == RowItems(m[p], x, k)[MIN]
    ensures |m4[p].item| == MIN + 1
    ensures m[p].depth > 0 ==> |m4[p].branch| == MIN + 2 && |m4[r].branch| > 0
    ensures m[p].depth > 0 ==> m4[p].branch[MIN + 1] in m4 && m4[p].branch[MIN + 1] !in {p, r}
    ensures m[p].depth == 0 ==> m4[p].branch == []
  {
    RowFacts(m, root, p, k, xr);
    hide Ready, RowItems, RowBranches, Leads;
  }

  lemma SplitAddresses<T>(m: Memory<T>, m': Memory<T>, p: Id, k: nat, x: T, xr: Id, x': T, r: Id, limit: Id)
    requires Split(m, m', p, k, x, xr, x', r) && r < limit && forall y | y in m :: y < limit
    ensures forall y | y in m' :: y < limit
  {
  }

  lemma AdoptOne<T>(m: Memory<T>, m1: Memory<T>, m2: Memory<T>, p: Id, from: nat, i: nat)
    requires Adopted(m, m1, p, from, i) && i < |m[p].branch| && m[p].branch[i] in m
    requires Distinct(m[p].branch)
    requires var c := m[p].branch[i]; m2 == m1[c := m1[c].(parent := p, k := i)]
    ensures Adopted(m, m2, p, from, i + 1)
  {
    hide Among, Same;
    var b, c := m[p].branch, m[p].branch[i];
    AmongLast(b, from, i);
    forall y | y in m
      ensures Same(m, m2, y)
    {
      AdoptedSame(m, m1, m2, c, p, i, y);
    }
    forall y | y in m && !Among(b, from, i + 1, y)
      ensures m2[y] == m[y]
    {
      AmongMore(b, from, i, y);
    }
    forall j | from <= j < i + 1
      ensures b[j] in m && m2[b[j]].parent == p && m2[b[j]].k == j
    {
    }
  }

  lemma AdoptedSame<T>(m: Memory<T>, m1: Memory<T>, m2: Memory<T>, c: Id, p: Id, i: nat, y: Id)
    requires y in m && Same(m, m1, y) && c in m1 && m2 == m1[c := m1[c].(parent := p, k := i)]
    ensures Same(m, m2, y)
  {
  }

  lemma AmongLast(b: seq<Id>, from: nat, i: nat)
    requires from <= i < |b|
    ensures Among(b, from, i + 1, b[i])
  {
  }

  lemma AmongMore(b: seq<Id>, from: nat, i: nat, y: Id)
    ensures Among(b, from, i, y) ==> Among(b, from, i + 1, y)
  {
  }

  lemma AdoptedNone<T>(m: Memory<T>, p: Id)
    requires p in m
    ensures Adopted(m, m, p, 0, 0)
  {
  }
}
