/** Finding items in a sorted B-tree, and inserting, looking up and removing by key. */
module BtreeSearch {
  import opened Basics
  import opened Orders
  import opened BtreeMemory
  import opened BtreeInsertion
  import opened BtreeRemoval
  import opened Btree
  import opened BtreeIteration

  /** Items never descend. */
  ghost predicate SortedItems<T>(cmp: (T, T) -> int, s: seq<T>) {
    forall i, j | 0 <= i < j < |s| :: cmp(s[i], s[j]) <= 0
  }

  /** Item x belongs to the left of the position sought: it is below the key, or, looking for the
      end of the matching items, equal to it. */
  ghost predicate GoesLeft<T>(cmp: (T, T) -> int, key: T, lr: int, x: T) {
    cmp(key, x) > 0 || (lr == 1 && cmp(key, x) == 0)
  }

  /** All of left goes left, and nothing of right. */
  ghost predicate Divides<T>(cmp: (T, T) -> int, key: T, lr: int, left: seq<T>, right: seq<T>) {
    (forall x | x in left :: GoesLeft(cmp, key, lr, x)) && (forall x | x in right :: !GoesLeft(cmp, key, lr, x))
  }

  /** The matching item next to the position: the first to its right, or the last to its left. */
  ghost function Match<T>(cmp: (T, T) -> int, key: T, lr: int, left: seq<T>, right: seq<T>): Option<T> {
    if lr == 0 then if right != [] && cmp(key, right[0]) == 0 then Some(right[0]) else None
    else if left != [] && cmp(key, left[|left| - 1]) == 0 then Some(left[|left| - 1]) else None
  }

  lemma Monotone<T(!new)>(cmp: (T, T) -> int, key: T, lr: int, x: T, y: T)
    requires TotalPreorder(cmp) && cmp(x, y) <= 0
    ensures GoesLeft(cmp, key, lr, y) ==> GoesLeft(cmp, key, lr, x)
    ensures cmp(key, y) > 0 ==> cmp(key, x) > 0
    ensures cmp(key, x) < 0 ==> cmp(key, y) < 0
  {
    hide TotalPreorder;
    Transitive(cmp, x, y, key);
    Transitive(cmp, key, x, y);
    Opposite(cmp, key, y);
    Opposite(cmp, key, x);
  }

  /** What holds of an item holds of all those on its side. */
  lemma AroundMiddle<T(!new)>(cmp: (T, T) -> int, key: T, lr: int, base: seq<T>, c: nat)
    requires TotalPreorder(cmp) && SortedItems(cmp, base) && c < |base|
    ensures GoesLeft(cmp, key, lr, base[c]) ==> forall i | 0 <= i < c :: GoesLeft(cmp, key, lr, base[i])
    ensures !GoesLeft(cmp, key, lr, base[c]) ==> forall i | c < i < |base| :: !GoesLeft(cmp, key, lr, base[i])
    ensures cmp(key, base[c]) > 0 ==> forall i | 0 <= i < c :: cmp(key, base[i]) > 0
    ensures cmp(key, base[c]) < 0 ==> forall i | c < i < |base| :: cmp(key, base[i]) < 0
  {
    hide TotalPreorder, GoesLeft;
    forall i | 0 <= i < c
      ensures GoesLeft(cmp, key, lr, base[c]) ==> GoesLeft(cmp, key, lr, base[i])
      ensures cmp(key, base[c]) > 0 ==> cmp(key, base[i]) > 0
    {
      Monotone(cmp, key, lr, base[i], base[c]);
    }
    forall i | c < i < |base|
      ensures !GoesLeft(cmp, key, lr, base[c]) ==> !GoesLeft(cmp, key, lr, base[i])
      ensures cmp(key, base[c]) < 0 ==> cmp(key, base[i]) < 0
    {
      Monotone(cmp, key, lr, base[c], base[i]);
    }
  }

  /** Binary search among the items of a node. */
  method Search<T(!new)>(cmp: (T, T) -> int, key: T, base: seq<T>, lr: int) returns (k: nat, found: bool)
    requires TotalPreorder(cmp) && SortedItems(cmp, base) && (lr == 0 || lr == 1)
    ensures k <= |base| && Divides(cmp, key, lr, base[..k], base[k..])
    ensures found <==> Match(cmp, key, lr, base[..k], base[k..]) != None
  {
    hide TotalPreorder;
    found := false;
    var start, count := 0, |base|;
    while count > 0
      invariant 0 <= start && 0 <= count && start + count <= |base|
      invariant forall i | 0 <= i < start :: GoesLeft(cmp, key, lr, base[i])
      invariant forall i | start + count <= i < |base| :: !GoesLeft(cmp, key, lr, base[i])
      invariant lr == 0 ==> (found <==> start + count < |base| && cmp(key, base[start + count]) == 0)
      invariant lr == 1 ==> (found <==> start > 0 && cmp(key, base[start - 1]) == 0)
      decreases count
    {
      var middle := count / 2;
      var b := base[start + middle];
      AroundMiddle(cmp, key, lr, base, start + middle);
      if cmp(key, b) == 0 {
        found := true;
        if lr == 1 {
          start, count := start + middle + 1, count - middle - 1;
        } else {
          count := middle;
        }
      } else if cmp(key, b) < 0 {
        count := middle;
      } else {
        start, count := start + middle + 1, count - middle - 1;
      }
    }
    k := start;
  }

  // ---------- From node to node ----------

  lemma Concatenated<T>(cmp: (T, T) -> int, a: seq<T>, b: seq<T>, c: seq<T>)
    requires SortedItems(cmp, a + b + c)
    ensures SortedItems(cmp, a) && SortedItems(cmp, c)
    ensures forall x, y | x in a && y in c :: cmp(x, y) <= 0
  {
    var s := a + b + c;
    assert forall i | 0 <= i < |a| :: s[i] == a[i];
    assert forall i | 0 <= i < |c| :: s[|a| + |b| + i] == c[i];
  }

  /** Going right in a node only adds to what is on the left. */
  lemma {:induction false} LeftGrows<T>(m: Memory<T>, root: Id, p: Id, i: nat, j: nat)
    requires Linked(m, root, NULL) && p in m && Leads(m, p) && i <= j <= |m[p].item|
    ensures Left(m, root, p, i) <= Left(m, root, p, j)
    decreases j
  {
    hide Linked, Leads, Left, Right, Mid;
    if i < j {
      StepBack(m, root, p, j);
      LeftGrows(m, root, p, i, j - 1);
      assert Left(m, root, p, j - 1) <= ItemsBefore(m, root, p, j - 1);
    }
  }

  lemma LeftOfItem<T>(m: Memory<T>, root: Id, p: Id, i: nat, j: nat)
    requires Linked(m, root, NULL) && p in m && Leads(m, p) && i < j <= |m[p].item|
    ensures m[p].item[i] in Left(m, root, p, j)
  {
    hide Linked, Leads, Left, Right, Mid, ItemsBefore;
    StepBack(m, root, p, i + 1);
    LeftGrows(m, root, p, i + 1, j);
    assert m[p].item[i] == Left(m, root, p, i + 1)[|Left(m, root, p, i + 1)| - 1];
    assert Left(m, root, p, j)[|Left(m, root, p, i + 1)| - 1] == m[p].item[i];
  }

  /** In a sorted tree the items of every node are sorted. */
  lemma NodeSorted<T>(cmp: (T, T) -> int, m: Memory<T>, root: Id, p: Id)
    requires Linked(m, root, NULL) && p in m && Leads(m, p) && SortedItems(cmp, Contents(m, root))
    ensures SortedItems(cmp, m[p].item)
  {
    hide Linked, Leads, Left, Right, Mid, Contents, SortedItems;
    forall i: nat, j: nat | i < j < |m[p].item|
      ensures cmp(m[p].item[i], m[p].item[j]) <= 0
    {
      Position(m, root, p, j);
      NextItem(m, root, p, j);
      Concatenated(cmp, Left(m, root, p, j), Mid(m, p, j), Right(m, root, p, j));
      LeftOfItem(m, root, p, i, j);
    }
    SortedBy(cmp, m[p].item);
  }

  lemma SortedBy<T>(cmp: (T, T) -> int, s: seq<T>)
    requires forall i: nat, j: nat | i < j < |s| :: cmp(s[i], s[j]) <= 0
    ensures SortedItems(cmp, s)
  {
  }

  /** If the last item of a sorted list goes left, all do; if the first does not, none does. */
  lemma EndsDecide<T(!new)>(cmp: (T, T) -> int, key: T, lr: int, left: seq<T>, right: seq<T>)
    requires TotalPreorder(cmp) && SortedItems(cmp, left) && SortedItems(cmp, right)
    requires left == [] || GoesLeft(cmp, key, lr, left[|left| - 1])
    requires right == [] || !GoesLeft(cmp, key, lr, right[0])
    ensures Divides(cmp, key, lr, left, right)
  {
    hide TotalPreorder, GoesLeft;
    forall x | x in left
      ensures GoesLeft(cmp, key, lr, x)
    {
      var i :| 0 <= i < |left| && left[i] == x;
      if i < |left| - 1 {
        Monotone(cmp, key, lr, x, left[|left| - 1]);
      }
    }
    forall x | x in right
      ensures !GoesLeft(cmp, key, lr, x)
    {
      var i :| 0 <= i < |right| && right[i] == x;
      if i > 0 {
        Monotone(cmp, key, lr, right[0], x);
      }
    }
  }

  /** What is left and right of position k of node p: the nearest items are those of the node, or,
      at its ends, those around the node. */
  lemma Nearest<T>(m: Memory<T>, root: Id, p: Id, k: nat)
    requires Linked(m, root, NULL) && p in m && Leads(m, p) && k <= |m[p].item|
    ensures var l, r := Left(m, root, p, k), Right(m, root, p, k);
            && (if k == 0 then l == Prefix(m, root, p) else l != [] && l[|l| - 1] == m[p].item[k - 1])
            && (if k == |m[p].item| then r == Suffix(m, root, p) else r != [] && r[0] == m[p].item[k])
  {
    hide Linked, Leads, Left, Right, Mid, Inner, Outer, Prefix, Suffix;
    AroundPosition(m, root, p, k);
    if k == 0 {
      EndOuter(m, p);
      assert Prefix(m, root, p) + [] == Prefix(m, root, p);
    } else {
      StepBack(m, root, p, k);
    }
    if k == |m[p].item| {
      EndOuter(m, p);
      assert [] + Suffix(m, root, p) == Suffix(m, root, p);
    } else {
      NextItem(m, root, p, k);
    }
  }

  /** An earlier match stays the nearest, or the node has a nearer one. */
  lemma MatchStep<T(!new)>(cmp: (T, T) -> int, key: T, lr: int, left: seq<T>, right: seq<T>, it: seq<T>, k: nat,
                           left': seq<T>, right': seq<T>)
    requires TotalPreorder(cmp) && (lr == 0 || lr == 1) && k <= |it|
    requires Divides(cmp, key, lr, it[..k], it[k..])
    requires if k == 0 then left' == left else left' != [] && left'[|left'| - 1] == it[k - 1]
    requires if k == |it| then right' == right else right' != [] && right'[0] == it[k]
    requires forall x, y | x in left && y in it :: cmp(x, y) <= 0
    requires forall x, y | x in it && y in right :: cmp(x, y) <= 0
    ensures var f := Match(cmp, key, lr, it[..k], it[k..]);
            Match(cmp, key, lr, left', right') == if f != None then f else Match(cmp, key, lr, left, right)
    ensures Match(cmp, key, lr, it[..k], it[k..]) != None ==>
              0 <= k - lr < |it| && Match(cmp, key, lr, it[..k], it[k..]) == Some(it[k - lr])
  {
    hide TotalPreorder;
    if k > 0 {
      assert it[..k][k - 1] == it[k - 1] && it[k - 1] in it[..k];
    }
    if k < |it| {
      assert it[k..][0] == it[k] && it[k] in it[k..];
    }
    if lr == 0 && k < |it| && right != [] {
      assert it[k] in it && right[0] in right;
      Transitive(cmp, it[k], right[0], key);
      Opposite(cmp, key, right[0]);
      Opposite(cmp, key, it[k]);
    }
    if lr == 1 && k > 0 && left != [] {
      var x := left[|left| - 1];
      assert it[k - 1] in it && x in left;
      Transitive(cmp, key, x, it[k - 1]);
      Opposite(cmp, key, x);
      Opposite(cmp, key, it[k - 1]);
    }
  }

  /** One level of the search. */
  lemma SearchStep<T(!new)>(cmp: (T, T) -> int, key: T, lr: int, m: Memory<T>, root: Id, p: Id, k: nat)
    requires TotalPreorder(cmp) && (lr == 0 || lr == 1)
    requires Linked(m, root, NULL) && p in m && Leads(m, p) && k <= |m[p].item| && SortedItems(cmp, Contents(m, root))
    requires Divides(cmp, key, lr, Prefix(m, root, p), Suffix(m, root, p))
    requires Divides(cmp, key, lr, m[p].item[..k], m[p].item[k..])
    ensures Divides(cmp, key, lr, Left(m, root, p, k), Right(m, root, p, k))
    ensures var f := Match(cmp, key, lr, m[p].item[..k], m[p].item[k..]);
            && Match(cmp, key, lr, Left(m, root, p, k), Right(m, root, p, k)) ==
               (if f != None then f else Match(cmp, key, lr, Prefix(m, root, p), Suffix(m, root, p)))
            && (f != None ==> 0 <= k - lr < |m[p].item| && f == Some(m[p].item[k - lr]))
  {
    var it, l, r := m[p].item, Left(m, root, p, k), Right(m, root, p, k);
    hide *;
    Nearest(m, root, p, k);
    Position(m, root, p, k);
    Concatenated(cmp, l, Mid(m, p, k), r);
    RowEnds(cmp, key, lr, it, k);
    EndsByNode(cmp, key, lr, Prefix(m, root, p), Suffix(m, root, p), l, r);
    Around(cmp, m, root, p);
    MatchStep(cmp, key, lr, Prefix(m, root, p), Suffix(m, root, p), it, k, l, r);
  }

  lemma RowEnds<T>(cmp: (T, T) -> int, key: T, lr: int, it: seq<T>, k: nat)
    requires k <= |it| && Divides(cmp, key, lr, it[..k], it[k..])
    ensures k > 0 ==> GoesLeft(cmp, key, lr, it[k - 1])
    ensures k < |it| ==> !GoesLeft(cmp, key, lr, it[k])
  {
    hide GoesLeft;
    if k > 0 {
      assert it[k - 1] == it[..k][k - 1];
    }
    if k < |it| {
      assert it[k] == it[k..][0];
    }
  }

  lemma EndsByNode<T(!new)>(cmp: (T, T) -> int, key: T, lr: int, pre: seq<T>, suf: seq<T>, l: seq<T>, r: seq<T>)
    requires TotalPreorder(cmp) && SortedItems(cmp, l) && SortedItems(cmp, r) && Divides(cmp, key, lr, pre, suf)
    requires l == pre || (l != [] && GoesLeft(cmp, key, lr, l[|l| - 1]))
    requires r == suf || (r != [] && !GoesLeft(cmp, key, lr, r[0]))
    ensures Divides(cmp, key, lr, l, r)
  {
    hide TotalPreorder, SortedItems, GoesLeft;
    EndsDecide(cmp, key, lr, l, r);
  }

  /** The items of a node are between what is around the node. */
  lemma Around<T>(cmp: (T, T) -> int, m: Memory<T>, root: Id, p: Id)
    requires Linked(m, root, NULL) && p in m && Leads(m, p) && SortedItems(cmp, Contents(m, root))
    ensures forall x, y | x in Prefix(m, root, p) && y in m[p].item :: cmp(x, y) <= 0
    ensures forall x, y | x in m[p].item && y in Suffix(m, root, p) :: cmp(x, y) <= 0
  {
    hide Linked, Leads, Left, Right, Mid, Contents, SortedItems, Prefix, Suffix, ItemsBefore, ItemsAfter;
    var it := m[p].item;
    LinkedFacts(m, root, NULL);
    forall x, y | x in Prefix(m, root, p) && y in it
      ensures cmp(x, y) <= 0
    {
      var i: nat :| i < |it| && it[i] == y;
      PrefixSuffix(m, root, p, i);
      NextItem(m, root, p, i);
      PositionSplits(m, root, p, i);
      assert ItemsBefore(m, root, p, i) + [] + ItemsAfter(m, root, p, i) == Contents(m, root);
      Concatenated(cmp, ItemsBefore(m, root, p, i), [], ItemsAfter(m, root, p, i));
    }
    forall x, y | x in it && y in Suffix(m, root, p)
      ensures cmp(x, y) <= 0
    {
      var i: nat :| i < |it| && it[i] == x;
      PrefixSuffix(m, root, p, i + 1);
      Nearest(m, root, p, i + 1);
      Position(m, root, p, i + 1);
      Concatenated(cmp, Left(m, root, p, i + 1), Mid(m, p, i + 1), Right(m, root, p, i + 1));
    }
  }

  lemma PrefixSuffix<T>(m: Memory<T>, root: Id, p: Id, k: nat)
    requires Linked(m, root, NULL) && p in m && Leads(m, p) && k <= |m[p].item|
    ensures forall x | x in Prefix(m, root, p) :: x in ItemsBefore(m, root, p, k)
    ensures forall x | x in Suffix(m, root, p) :: x in Right(m, root, p, k)
  {
    hide Linked, Leads, Left, Inner, Outer, Mid, Prefix, Suffix, Right;
    AroundPosition(m, root, p, k);
  }

  // ---------- By key ----------

  /** Go to the place of a key: before all items that match it (lr = 0), or after them (lr = 1).
      Returns whether there is a match, and leaves the nearest one in the iterator. */
  method FindLr<T(0,!new)>(cmp: (T, T) -> int, btree: BTree<T>, key: T, iter: BtreeIterator<T>,
                           lr: int) returns (found: bool)
    requires TotalPreorder(cmp) && (lr == 0 || lr == 1)
    requires btree.Valid() && SortedItems(cmp, Contents(btree.nodes, btree.root))
    modifies iter
    ensures iter.btree == btree && iter.At() && Divides(cmp, key, lr, iter.Before(), iter.After())
    ensures iter.item == Match(cmp, key, lr, iter.Before(), iter.After()) && (found <==> iter.item != None)
  {
    hide TotalPreorder, Linked, Leads, Left, Right, Mid, Contents;
    hide SortedItems, Prefix, Suffix, Match, Divides, Occupied, ItemsBefore, ItemsAfter;
    ghost var m, root := btree.nodes, btree.root;
    LinkedFacts(m, root, NULL);
    AtRoot(cmp, key, lr, m, root);
    iter.btree := btree;
    iter.item := None;
    found := false;
    var node := btree.root;
    var depth := btree.nodes[node].depth;
    var k: nat, f;
    while true
      invariant node in m && Leads(m, node) && depth == m[node].depth && iter.btree == btree
      invariant Divides(cmp, key, lr, Prefix(m, root, node), Suffix(m, root, node))
      invariant iter.item == Match(cmp, key, lr, Prefix(m, root, node), Suffix(m, root, node))
      invariant (found <==> iter.item != None)
      decreases depth
    {
      NodeSorted(cmp, m, root, node);
      k, f := Search(cmp, key, btree.nodes[node].item, lr);
      SearchStep(cmp, key, lr, m, root, node, k);
      if f {
        iter.item := Some(btree.nodes[node].item[k - lr]);
        found := true;
      }
      if depth == 0 {
        break;
      }
      BranchAround(m, root, node, k);
      node := btree.nodes[node].branch[k];
      depth := depth - 1;
    }
    LeafEnds(m, root, node, k);
    iter.node := node;
    iter.k := k;
  }

  lemma AtRoot<T>(cmp: (T, T) -> int, key: T, lr: int, m: Memory<T>, root: Id)
    requires Linked(m, root, NULL) && (lr == 0 || lr == 1)
    ensures Divides(cmp, key, lr, Prefix(m, root, root), Suffix(m, root, root))
    ensures Match(cmp, key, lr, Prefix(m, root, root), Suffix(m, root, root)) == None
  {
  }

  lemma BranchAround<T>(m: Memory<T>, root: Id, p: Id, k: nat)
    requires Linked(m, root, NULL) && p in m && Leads(m, p) && k <= |m[p].item| && m[p].depth > 0
    ensures k < |m[p].branch|
    ensures var c := m[p].branch[k];
            && c in m && Leads(m, c) && m[c].depth + 1 == m[p].depth
            && Prefix(m, root, c) == Left(m, root, p, k) && Suffix(m, root, c) == Right(m, root, p, k)
  {
    BranchFacts(m, root, NULL, p, k);
    hide Left, Right;
    assert Leads(m, m[p].branch[k]);
  }

  lemma LeafEnds<T>(m: Memory<T>, root: Id, p: Id, k: nat)
    requires Linked(m, root, NULL) && p in m && Leads(m, p) && k <= |m[p].item| && m[p].depth == 0
    ensures ItemsBefore(m, root, p, k) == Left(m, root, p, k) && ItemsAfter(m, root, p, k) == Right(m, root, p, k)
  {
    hide Linked, Leads, Left, Right;
    LeafMid(m, root, p, k);
  }

  /** An item between what goes left of it and what does not leaves the list sorted. */
  lemma InsertedSorted<T(!new)>(cmp: (T, T) -> int, x: T, lr: int, left: seq<T>, right: seq<T>)
    requires TotalPreorder(cmp) && SortedItems(cmp, left + right) && Divides(cmp, x, lr, left, right)
    ensures SortedItems(cmp, left + [x] + right)
  {
    hide TotalPreorder;
    var s, t := left + [x] + right, left + right;
    forall i, j | 0 <= i < j < |s|
      ensures cmp(s[i], s[j]) <= 0
    {
      if i == |left| {
        assert s[j] == right[j - |left| - 1] && s[j] in right;
        Opposite(cmp, x, s[j]);
      } else if j == |left| {
        assert s[i] == left[i] && s[i] in left;
        Opposite(cmp, x, s[i]);
      } else {
        assert s[i] == t[if i < |left| then i else i - 1] && s[j] == t[if j < |left| then j else j - 1];
      }
    }
  }

  /** x matches an item of the list exactly if it matches one next to its place. */
  lemma MatchAnywhere<T(!new)>(cmp: (T, T) -> int, key: T, lr: int, left: seq<T>, right: seq<T>)
    requires TotalPreorder(cmp) && SortedItems(cmp, left + right) && Divides(cmp, key, lr, left, right)
    requires (lr == 0 || lr == 1)
    ensures Match(cmp, key, lr, left, right) == None <==> forall x | x in left + right :: cmp(key, x) != 0
  {
    hide TotalPreorder;
    var s := left + right;
    assert forall i | 0 <= i < |left| :: s[i] == left[i] && s[i] in left;
    assert forall i | |left| <= i < |s| :: s[i] == right[i - |left|] && s[i] in right;
    if x :| x in s && cmp(key, x) == 0 {
      var i :| 0 <= i < |s| && s[i] == x;
      Reflexive(cmp, x);
      var y := s[if lr == 0 then |left| else |left| - 1];
      if lr == 0 {
        Monotone(cmp, key, lr, y, x);
      } else {
        Monotone(cmp, key, lr, x, y);
      }
    }
    if Match(cmp, key, lr, left, right) != None {
      var y := Match(cmp, key, lr, left, right).value;
      assert y in s;
    }
  }

  /** Add an item after those that it matches; without multi, only if it matches none. */
  method Insert<T(0,!new)>(cmp: (T, T) -> int, btree: BTree<T>, item: T, multi: bool) returns (inserted: bool)
    requires TotalPreorder(cmp) && btree.Valid() && SortedItems(cmp, Contents(btree.nodes, btree.root))
    modifies btree
    ensures btree.Valid() && SortedItems(cmp, Contents(btree.nodes, btree.root))
    ensures inserted <==> multi || forall x | x in old(Contents(btree.nodes, btree.root)) :: cmp(item, x) != 0
    ensures if inserted
            then exists i: nat :: AfterDuplicates(cmp, item, old(Contents(btree.nodes, btree.root)), i) &&
                   Contents(btree.nodes, btree.root) == Spliced(old(Contents(btree.nodes, btree.root)), i, item)
            else Contents(btree.nodes, btree.root) == old(Contents(btree.nodes, btree.root))
  {
    hide TotalPreorder, Linked, Leads, Contents, SortedItems, Divides, Match, Occupied, ItemsBefore, ItemsAfter;
    var iter := new BtreeIterator<T>(btree);
    var found := FindLr(cmp, btree, item, iter, 1);
    ghost var m, root, before, after := btree.nodes, btree.root, iter.Before(), iter.After();
    PositionSplits(m, root, iter.node, iter.k);
    MatchAnywhere(cmp, item, 1, before, after);
    if found && !multi {
      return false;
    }
    InsertedSorted(cmp, item, 1, before, after);
    SplicedAt(before, item, after);
    EndOfDuplicates(cmp, item, before, after);
    iter.InsertAt(item);
    return true;
  }

  /** Up to position i the items are no greater than x, and from there on they are greater. */
  ghost predicate AfterDuplicates<T>(cmp: (T, T) -> int, x: T, s: seq<T>, i: nat) {
    && i <= |s|
    && (forall j | 0 <= j < i :: cmp(x, s[j]) >= 0)
    && forall j | i <= j < |s| :: cmp(x, s[j]) < 0
  }

  lemma EndOfDuplicates<T>(cmp: (T, T) -> int, x: T, left: seq<T>, right: seq<T>)
    requires Divides(cmp, x, 1, left, right)
    ensures AfterDuplicates(cmp, x, left + right, |left|)
  {
    var s := left + right;
    forall j | 0 <= j < |s|
      ensures if j < |left| then cmp(x, s[j]) >= 0 else cmp(x, s[j]) < 0
    {
      assert if j < |left| then left[j] in left else right[j - |left|] in right;
    }
  }

  ghost function Spliced<T>(s: seq<T>, i: nat, x: T): seq<T>
    requires i <= |s|
  {
    s[..i] + [x] + s[i..]
  }

  lemma SplicedAt<T>(left: seq<T>, x: T, right: seq<T>)
    ensures left + [x] + right == Spliced(left + right, |left|, x)
  {
    assert (left + right)[..|left|] == left && (left + right)[|left|..] == right;
  }

  /** The first item that matches the key. */
  method Lookup<T(0,!new)>(cmp: (T, T) -> int, btree: BTree<T>, key: T) returns (r: Option<T>)
    requires TotalPreorder(cmp) && btree.Valid() && SortedItems(cmp, Contents(btree.nodes, btree.root))
    ensures r == None <==> forall x | x in Contents(btree.nodes, btree.root) :: cmp(key, x) != 0
    ensures r != None ==> exists i: nat :: IsFirst(cmp, key, Contents(btree.nodes, btree.root),
                                                   i) && r.value == Contents(btree.nodes, btree.root)[i]
  {
    hide TotalPreorder, Linked, Leads, Contents, SortedItems, Divides, Occupied, ItemsBefore, ItemsAfter;
    var iter := new BtreeIterator<T>(btree);
    var found := FindLr(cmp, btree, key, iter, 0);
    PositionSplits(btree.nodes, btree.root, iter.node, iter.k);
    MatchAnywhere(cmp, key, 0, iter.Before(), iter.After());
    if found {
      FirstMatch(cmp, key, iter.Before(), iter.After());
      return iter.item;
    }
    return None;
  }

  /** Position i is the first whose item matches the key. */
  ghost predicate IsFirst<T>(cmp: (T, T) -> int, key: T, s: seq<T>, i: nat) {
    i < |s| && cmp(key, s[i]) == 0 && forall j | 0 <= j < i :: cmp(key, s[j]) != 0
  }

  lemma FirstMatch<T>(cmp: (T, T) -> int, key: T, left: seq<T>, right: seq<T>)
    requires Divides(cmp, key, 0, left, right) && Match(cmp, key, 0, left, right) != None
    ensures IsFirst(cmp, key, left + right, |left|) && (left + right)[|left|] == Match(cmp, key, 0, left, right).value
  {
    forall j | 0 <= j < |left|
      ensures cmp(key, (left + right)[j]) != 0
    {
      assert left[j] in left;
    }
  }

  /** Remove the first item that matches the key.  */
  method Remove<T(0,!new)>(cmp: (T, T) -> int, btree: BTree<T>, key: T) returns (success: bool)
    requires TotalPreorder(cmp) && btree.Valid() && SortedItems(cmp, Contents(btree.nodes, btree.root))
    modifies btree
    ensures btree.Valid() && SortedItems(cmp, Contents(btree.nodes, btree.root))
    ensures success <==> exists x :: x in old(Contents(btree.nodes, btree.root)) && cmp(key, x) == 0
    ensures if success
            then exists i: nat :: IsFirst(cmp, key, old(Contents(btree.nodes, btree.root)), i) &&
                   Contents(btree.nodes, btree.root) == Without(old(Contents(btree.nodes, btree.root)), i)
            else Contents(btree.nodes, btree.root) == old(Contents(btree.nodes, btree.root))
  {
    hide TotalPreorder, Linked, Leads, Contents, SortedItems, Divides, Occupied, ItemsBefore, ItemsAfter, Without;
    var iter := new BtreeIterator<T>(btree);
    success := FindLr(cmp, btree, key, iter, 0);
    ghost var before, after := iter.Before(), iter.After();
    PositionSplits(btree.nodes, btree.root, iter.node, iter.k);
    MatchAnywhere(cmp, key, 0, before, after);
    if success {
      FirstMatch(cmp, key, before, after);
      RemovedSorted(cmp, before, after);
      var _ := iter.RemoveAt();
    }
  }

  lemma RemovedSorted<T>(cmp: (T, T) -> int, left: seq<T>, right: seq<T>)
    requires SortedItems(cmp, left + right) && right != []
    ensures left + right[1..] == Without(left + right, |left|) && SortedItems(cmp, left + right[1..])
  {
    var s, t := left + right, left + right[1..];
    assert forall i | 0 <= i < |t| :: t[i] == s[if i < |left| then i else i + 1];
  }
}
