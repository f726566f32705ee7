/** The nodes of a B-tree as the memory they live in: records with parent pointers, found by
their address.  What a node holds is the items below it, in order. */
module BtreeMemory {
  import opened Basics

  type Id = int
  const NULL: Id := 0

  const MAX := 20
  const MIN := 10

  /** k is the node's index among the branches of its parent. */
  datatype Node<T> = Node(parent: Id, k: nat, depth: nat, item: seq<T>, branch: seq<Id>)

  type Memory<T> = map<Id, Node<T>>

  /** Items of a subtree given in place of what memory holds. */
  type Given<T> = map<Id, seq<T>>

  /** The items below node x, which is e levels above the leaves. */
  ghost function Items<T>(m: Memory<T>, o: Given<T>, x: Id, e: nat): seq<T>
    decreases e, 0
  {
    if x in o then o[x]
    else if x !in m then []
    else if e == 0 then m[x].item
    else Woven(m, o, m[x].branch, m[x].item, e - 1)
  }

  /** The items below a row of branches, with the dividers between and after them. */
  ghost function Woven<T>(m: Memory<T>, o: Given<T>, b: seq<Id>, dividers: seq<T>, e: nat): seq<T>
    decreases e, |b|
  {
    if b == [] then []
    else
      Items(m, o, b[0], e) +
      (if dividers == [] then [] else [dividers[0]] + Woven(m, o, b[1..], dividers[1..], e))
  }

  lemma NodeItems<T>(m: Memory<T>, o: Given<T>, x: Id, e: nat)
    requires x in m && x !in o
    ensures e == 0 ==> Items(m, o, x, e) == m[x].item
    ensures e > 0 ==> Items(m, o, x, e) == Woven(m, o, m[x].branch, m[x].item, e - 1)
  {
  }

  lemma GivenItems<T>(m: Memory<T>, o: Given<T>, x: Id, e: nat)
    requires x in o
    ensures Items(m, o, x, e) == o[x]
  {
  }

  lemma WovenFirst<T>(m: Memory<T>, o: Given<T>, y: Id, b: seq<Id>, x: T, dividers: seq<T>, e: nat)
    ensures Woven(m, o, [y] + b, [x] + dividers, e) == Items(m, o, y, e) + [x] + Woven(m, o, b, dividers, e)
  {
    assert ([y] + b)[1..] == b && ([x] + dividers)[1..] == dividers;
    assert Items(m, o, y, e) + ([x] + Woven(m, o, b, dividers, e)) ==
           Items(m, o, y, e) + [x] + Woven(m, o, b, dividers, e);
  }

  lemma WovenLast<T>(m: Memory<T>, o: Given<T>, y: Id, e: nat)
    ensures Woven(m, o, [y], [], e) == Items(m, o, y, e)
    ensures Woven(m, o, [], [], e) == []
  {
  }

  /** A row can be cut after any divider. */
  lemma {:induction false} WovenJoin<T>(m: Memory<T>, o: Given<T>, b: seq<Id>, dividers: seq<T>, b': seq<Id>,
                                        dividers': seq<T>, e: nat)
    requires |b| == |dividers|
    ensures Woven(m, o, b + b', dividers + dividers', e) == Woven(m, o, b, dividers, e) + Woven(m, o, b', dividers', e)
    decreases |b|
  {
    hide Items;
    if b == [] {
      assert b + b' == b' && dividers + dividers' == dividers';
      WovenEmpty(m, o, e);
      assert [] + Woven(m, o, b', dividers', e) == Woven(m, o, b', dividers', e);
    } else {
      var y, t, x, d := b[0], b[1..], dividers[0], dividers[1..];
      assert b == [y] + t && dividers == [x] + d;
      assert b + b' == [y] + (t + b') && dividers + dividers' == [x] + (d + dividers');
      hide Woven;
      WovenFirst(m, o, y, t, x, d, e);
      WovenFirst(m, o, y, t + b', x, d + dividers', e);
      WovenJoin(m, o, t, d, b', dividers', e);
      Regroup(Items(m, o, y, e) + [x], Woven(m, o, t, d, e), Woven(m, o, b', dividers', e));
    }
  }

  lemma WovenEmpty<T>(m: Memory<T>, o: Given<T>, e: nat)
    ensures Woven(m, o, [], [], e) == []
  {
  }

  /** A row whose branch k is y: what is before y, y, and what is after. */
  lemma WovenAt<T>(m: Memory<T>, o: Given<T>, b: seq<Id>, dividers: seq<T>, k: nat, e: nat)
    requires k < |b| && |b| == |dividers| + 1
    ensures Woven(m, o, b, dividers, e) ==
            Woven(m, o, b[..k], dividers[..k], e) + Items(m, o, b[k], e) + After(m, o, b, dividers, k, e)
  {
    hide Items, Woven;
    assert b == b[..k] + b[k..] && dividers == dividers[..k] + dividers[k..];
    WovenJoin(m, o, b[..k], dividers[..k], b[k..], dividers[k..], e);
    WovenFrom(m, o, b, dividers, k, e);
    Regroup(Woven(m, o, b[..k], dividers[..k], e), Items(m, o, b[k], e), After(m, o, b, dividers, k, e));
  }

  lemma WovenFrom<T>(m: Memory<T>, o: Given<T>, b: seq<Id>, dividers: seq<T>, k: nat, e: nat)
    requires k < |b| && |b| == |dividers| + 1
    ensures Woven(m, o, b[k..], dividers[k..], e) == Items(m, o, b[k], e) + After(m, o, b, dividers, k, e)
  {
    hide Items, Woven;
    if k == |dividers| {
      assert b[k..] == [b[k]] && dividers[k..] == [];
      WovenLast(m, o, b[k], e);
    } else {
      assert b[k..] == [b[k]] + b[k + 1..] && dividers[k..] == [dividers[k]] + dividers[k + 1..];
      WovenFirst(m, o, b[k], b[k + 1..], dividers[k], dividers[k + 1..], e);
      Regroup(Items(m, o, b[k], e), [dividers[k]], Woven(m, o, b[k + 1..], dividers[k + 1..], e));
    }
  }

  /** What a row holds after branch k. */
  ghost function After<T>(m: Memory<T>, o: Given<T>, b: seq<Id>, dividers: seq<T>, k: nat, e: nat): seq<T>
    requires k < |b| && |b| == |dividers| + 1
  {
    if k == |dividers| then [] else [dividers[k]] + Woven(m, o, b[k + 1..], dividers[k + 1..], e)
  }

  // ---------- When two memories hold the same ----------

  /** The same items and branches, whatever the parent. */
  ghost predicate Same<T>(m: Memory<T>, m': Memory<T>, x: Id) {
    x in m && x in m' && m'[x].item == m[x].item && m'[x].branch == m[x].branch && m'[x].depth == m[x].depth
  }

  ghost predicate Leads<T>(m: Memory<T>, x: Id) {
    && x in m
    && |m[x].branch| == (if m[x].depth == 0 then 0 else |m[x].item| + 1)
    && forall i | 0 <= i < |m[x].branch| :: m[x].branch[i] in m && m[m[x].branch[i]].depth + 1 == m[x].depth
  }

  ghost predicate SameItems<T>(m: Memory<T>, o: Given<T>, m': Memory<T>, o': Given<T>, x: Id, e: nat) {
    Items(m, o, x, e) == Items(m', o', x, e)
  }

  /** A node that is the same in both memories, with no bad branches. */
  ghost predicate Alike<T>(m: Memory<T>, o: Given<T>, m': Memory<T>, o': Given<T>, bad: set<Id>, x: Id) {
    && x !in o && x !in o' && Same(m, m', x) && Leads(m, x)
    && forall i | 0 <= i < |m[x].branch| :: m[x].branch[i] !in bad
  }

  lemma {:induction false} WovenAlike<T>(m: Memory<T>, o: Given<T>, m': Memory<T>, o': Given<T>, b: seq<Id>,
                                         dividers: seq<T>, e: nat)
    requires forall i | 0 <= i < |b| :: SameItems(m, o, m', o', b[i], e)
    ensures Woven(m, o, b, dividers, e) == Woven(m', o', b, dividers, e)
    decreases |b|
  {
    hide Items;
    if b != [] && dividers != [] {
      forall i | 0 <= i < |b[1..]|
        ensures SameItems(m, o, m', o', b[1..][i], e)
      {
        assert b[1..][i] == b[i + 1];
      }
      WovenAlike(m, o, m', o', b[1..], dividers[1..], e);
    }
    if b != [] {
      assert SameItems(m, o, m', o', b[0], e);
    }
  }

  /** Apart from the bad nodes, all hold the same items in both memories, if those that are not
      alike do. */
  lemma {:induction false} Agree<T>(m: Memory<T>, o: Given<T>, m': Memory<T>, o': Given<T>, bad: set<Id>,
                                    given: set<Id>, x: Id, e: nat)
    requires forall y | y in m && y !in bad && y !in given :: Alike(m, o, m', o', bad, y)
    requires forall y | y in given && y in m :: SameItems(m, o, m', o', y, m[y].depth)
    requires x in m && x !in bad && m[x].depth == e
    ensures SameItems(m, o, m', o', x, e)
    decreases e
  {
    hide Items, Woven;
    if x !in given {
      assert Alike(m, o, m', o', bad, x);
      hide Alike;
      NodeItems(m, o, x, e);
      NodeItems(m', o', x, e);
      if e > 0 {
        forall i | 0 <= i < |m[x].branch|
          ensures SameItems(m, o, m', o', m[x].branch[i], e - 1)
        {
          BranchOf(m, o, m', o', bad, x, i);
          Agree(m, o, m', o', bad, given, m[x].branch[i], e - 1);
        }
        WovenAlike(m, o, m', o', m[x].branch, m[x].item, e - 1);
      }
    }
  }

  lemma BranchOf<T>(m: Memory<T>, o: Given<T>, m': Memory<T>, o': Given<T>, bad: set<Id>, x: Id, i: int)
    requires x in m && 0 <= i < |m[x].branch| && Alike(m, o, m', o', bad, x)
    ensures m[x].branch[i] in m && m[x].branch[i] !in bad && m[m[x].branch[i]].depth + 1 == m[x].depth
  {
  }

  /** The parts of a row that do not involve branch k are the same in both memories. */
  lemma RowAlike<T>(m: Memory<T>, o: Given<T>, m': Memory<T>, o': Given<T>, b: seq<Id>, dividers: seq<T>, k: nat,
                    e: nat)
    requires k < |b| && |b| == |dividers| + 1
    requires forall i | 0 <= i < |b| && i != k :: SameItems(m, o, m', o', b[i], e)
    ensures Woven(m, o, b[..k], dividers[..k], e) == Woven(m', o', b[..k], dividers[..k], e)
    ensures After(m, o, b, dividers, k, e) == After(m', o', b, dividers, k, e)
  {
    hide Items, Woven;
    WovenAlike(m, o, m', o', b[..k], dividers[..k], e);
    if k < |dividers| {
      var t := b[k + 1..];
      forall i | 0 <= i < |t|
        ensures SameItems(m, o, m', o', t[i], e)
      {
        assert t[i] == b[k + 1 + i];
      }
      WovenAlike(m, o, m', o', b[k + 1..], dividers[k + 1..], e);
    }
  }

  /** Nodes below level d are the same in both memories, and so is what they hold. */
  lemma LowerAlike<T>(m: Memory<T>, o: Given<T>, m': Memory<T>, o': Given<T>, d: nat, x: Id)
    requires forall y | y in m && m[y].depth < d :: y !in o && y !in o' && Same(m, m', y) && Leads(m, y)
    requires x in m && m[x].depth < d
    ensures SameItems(m, o, m', o', x, m[x].depth)
  {
    hide Items, Woven;
    var bad := set y | y in m && m[y].depth >= d;
    forall y | y in m && y !in bad
      ensures Alike(m, o, m', o', bad, y)
    {
      assert Leads(m, y);
    }
    Agree(m, o, m', o', bad, {}, x, m[x].depth);
  }

  // ---------- Linked nodes ----------

  /** The branches of x know x as their parent, and their index; the hole is not one of them. */
  ghost predicate Wired<T>(m: Memory<T>, hole: Id, x: Id)
    requires x in m
  {
    forall i | 0 <= i < |m[x].branch| ::
      m[x].branch[i] in m && m[x].branch[i] != hole && m[m[x].branch[i]].parent == x && m[m[x].branch[i]].k == i
  }

  /** node->parent->branch[node->k] == node. */
  ghost predicate Attached<T>(m: Memory<T>, x: Id)
    requires x in m
  {
    var q := m[x].parent;
    q in m && m[x].k < |m[q].branch| && m[q].branch[m[x].k] == x
  }

  /** All nodes form one tree below root, all leaves at the same depth; except for the hole, whose
      subtree hangs from nowhere yet. */
  ghost predicate Linked<T>(m: Memory<T>, root: Id, hole: Id) {
    && NULL !in m && root in m && root != hole && m[root].parent == NULL
    && (forall x | x in m :: Leads(m, x) && Wired(m, hole, x))
    && (forall x | x in m && x != root && x != hole :: Attached(m, x) && m[x].depth < m[root].depth)
  }

  lemma ParentFacts<T>(m: Memory<T>, root: Id, hole: Id, p: Id)
    requires Linked(m, root, hole) && p in m && p != root && p != hole
    ensures var q := m[p].parent;
            && q in m && q != p && Leads(m, q) && m[q].depth == m[p].depth + 1 && |m[q].branch| == |m[q].item| + 1
            && m[p].k <= |m[q].item| && m[q].branch[m[p].k] == p
            && (q != hole ==> m[q].depth <= m[root].depth) && m[p].depth < m[root].depth
  {
    assert Attached(m, p) && Leads(m, m[p].parent);
  }

  lemma RootFacts<T>(m: Memory<T>, root: Id, hole: Id, x: Id)
    requires Linked(m, root, hole) && x in m && x != hole
    ensures m[x].depth <= m[root].depth
    ensures m[x].parent == NULL <==> x == root
  {
    if x != root {
      assert Attached(m, x);
    }
  }

  lemma BranchFacts<T>(m: Memory<T>, root: Id, hole: Id, q: Id, i: nat)
    requires Linked(m, root, hole) && q in m && i < |m[q].branch|
    ensures var y := m[q].branch[i];
            && y in m && y != hole && y != root && m[y].parent == q && m[y].k == i && m[y].depth + 1 == m[q].depth
  {
    assert Leads(m, q) && Wired(m, hole, q);
  }

  /** No other node has branch p than its parent. */
  lemma OnlyParent<T>(m: Memory<T>, root: Id, hole: Id, p: Id, y: Id)
    requires Linked(m, root, hole) && p in m && y in m
    ensures y != m[p].parent ==> p !in m[y].branch
    ensures forall i | 0 <= i < |m[y].branch| && m[y].branch[i] == p :: i == m[p].k
  {
    assert Leads(m, y) && Wired(m, hole, y);
  }

  // ---------- Positions ----------

  /** What node p itself holds before branch k, in it, and after it.  In a leaf, position k is
      before item k. */
  ghost function Inner<T>(m: Memory<T>, p: Id, k: nat): seq<T>
    requires p in m && Leads(m, p) && k <= |m[p].item|
  {
    if m[p].depth == 0 then m[p].item[..k] else Woven(m, map[], m[p].branch[..k], m[p].item[..k], m[p].depth - 1)
  }

  ghost function Mid<T>(m: Memory<T>, p: Id, k: nat): seq<T>
    requires p in m && Leads(m, p) && k <= |m[p].item|
  {
    if m[p].depth == 0 then [] else Items(m, map[], m[p].branch[k], m[p].depth - 1)
  }

  ghost function Outer<T>(m: Memory<T>, p: Id, k: nat): seq<T>
    requires p in m && Leads(m, p) && k <= |m[p].item|
  {
    if m[p].depth == 0 then m[p].item[k..] else After(m, map[], m[p].branch, m[p].item, k, m[p].depth - 1)
  }

  lemma NodeParts<T>(m: Memory<T>, p: Id, k: nat)
    requires p in m && Leads(m, p) && k <= |m[p].item|
    ensures Items(m, map[], p, m[p].depth) == Inner(m, p, k) + Mid(m, p, k) + Outer(m, p, k)
  {
    hide Woven, After;
    if m[p].depth == 0 {
      assert m[p].item == m[p].item[..k] + [] + m[p].item[k..];
    } else {
      NodeItems(m, map[], p, m[p].depth);
      WovenAt(m, map[], m[p].branch, m[p].item, k, m[p].depth - 1);
    }
  }

  /** What the whole tree holds to the left of branch k of p. */
  ghost function Left<T>(m: Memory<T>, root: Id, p: Id, k: nat): seq<T>
    requires Linked(m, root, NULL) && p in m && k <= |m[p].item|
    decreases m[root].depth - m[p].depth
  {
    ParentIfAny(m, root, p);
    (if p == root then [] else Left(m, root, m[p].parent, m[p].k)) + Inner(m, p, k)
  }

  ghost function Right<T>(m: Memory<T>, root: Id, p: Id, k: nat): seq<T>
    requires Linked(m, root, NULL) && p in m && k <= |m[p].item|
    decreases m[root].depth - m[p].depth
  {
    ParentIfAny(m, root, p);
    Outer(m, p, k) + (if p == root then [] else Right(m, root, m[p].parent, m[p].k))
  }

  lemma ParentIfAny<T>(m: Memory<T>, root: Id, p: Id)
    requires Linked(m, root, NULL) && p in m
    ensures Leads(m, p) && m[p].depth <= m[root].depth && p != NULL
    ensures p != root ==> m[p].parent in m && m[m[p].parent].depth == m[p].depth + 1 <= m[root].depth
    ensures p != root ==> m[p].k <= |m[m[p].parent].item|
  {
    if p != root {
      ParentFacts(m, root, NULL, p);
    }
  }

  ghost function Contents<T>(m: Memory<T>, root: Id): seq<T>
    requires root in m
  {
    Items(m, map[], root, m[root].depth)
  }

  /** Node p's items given, its parent holds its own around them. */
  lemma ParentHolds<T>(m: Memory<T>, root: Id, hole: Id, p: Id, v: seq<T>)
    requires Linked(m, root, hole) && p in m && p != root && p != hole
    ensures var q := m[p].parent;
            && q in m && Leads(m, q) && m[p].k <= |m[q].item|
            && Items(m, map[p := v], q, m[q].depth) == Inner(m, q, m[p].k) + v + Outer(m, q, m[p].k)
  {
    hide Items, Woven, After;
    ParentFacts(m, root, hole, p);
    var q, k := m[p].parent, m[p].k;
    var b, it, e := m[q].branch, m[q].item, m[q].depth - 1;
    var o := map[p := v];
    NodeItems(m, o, q, m[q].depth);
    WovenAt(m, o, b, it, k, e);
    GivenItems(m, o, p, e);
    forall i | 0 <= i < |b| && i != k
      ensures SameItems(m, o, m, map[], b[i], e)
    {
      BranchFacts(m, root, hole, q, i);
      SiblingAlike(m, root, hole, p, v, b[i]);
    }
    RowAlike(m, o, m, map[], b, it, k, e);
  }

  lemma SiblingAlike<T>(m: Memory<T>, root: Id, hole: Id, p: Id, v: seq<T>, y: Id)
    requires Linked(m, root, hole) && p in m && y in m && y != p && m[y].depth == m[p].depth
    ensures SameItems(m, map[p := v], m, map[], y, m[y].depth)
  {
    hide Items, Woven;
    var o, bad := map[p := v], set z | z in m && (m[z].depth > m[p].depth || z == p);
    forall z | z in m && z !in bad
      ensures Alike(m, o, m, map[], bad, z)
    {
      assert Leads(m, z);
    }
    Agree(m, o, m, map[], bad, {}, y, m[y].depth);
  }

  /** Giving the items of p, or those of its parent around them, is the same for the whole tree. */
  lemma GivenUp<T>(m: Memory<T>, root: Id, p: Id, v: seq<T>, w: seq<T>)
    requires Linked(m, root, NULL) && p in m && p != root
    requires m[p].parent in m && w == Items(m, map[p := v], m[p].parent, m[m[p].parent].depth)
    ensures SameItems(m, map[p := v], m, map[m[p].parent := w], root, m[root].depth)
  {
    hide Items, Woven;
    var q := m[p].parent;
    var o, o' := map[p := v], map[q := w];
    forall y | y in m && y !in {p} && y !in {q}
      ensures Alike(m, o, m, o', {p}, y)
    {
      assert Leads(m, y);
      OnlyParent(m, root, NULL, p, y);
    }
    GivenItems(m, o', q, m[q].depth);
    Agree(m, o, m, o', {p}, {q}, root, m[root].depth);
  }

  /** Whatever stands at a position, the whole tree holds what is to its left, it, and what is to
      its right. */
  lemma {:induction false} Zoom<T>(m: Memory<T>, root: Id, p: Id, k: nat, v: seq<T>)
    requires Linked(m, root, NULL) && p in m && Leads(m, p) && k <= |m[p].item|
    ensures Items(m, map[p := Inner(m, p, k) + v + Outer(m, p, k)], root, m[root].depth) ==
            Left(m, root, p, k) + v + Right(m, root, p, k)
    decreases m[root].depth - m[p].depth
  {
    hide Items, Woven, After, Inner, Outer, Linked;
    ParentIfAny(m, root, p);
    var w := Inner(m, p, k) + v + Outer(m, p, k);
    if p == root {
      GivenItems(m, map[p := w], p, m[root].depth);
      assert [] + Inner(m, p, k) == Inner(m, p, k) && Outer(m, p, k) + [] == Outer(m, p, k);
    } else {
      var q, kq := m[p].parent, m[p].k;
      ParentHolds(m, root, NULL, p, w);
      GivenUp(m, root, p, w, Inner(m, q, kq) + w + Outer(m, q, kq));
      Zoom(m, root, q, kq, w);
      Nest(Left(m, root, q, kq), Inner(m, p, k), v, Outer(m, p, k), Right(m, root, q, kq));
    }
  }

  lemma Nest<T>(a: seq<T>, b: seq<T>, v: seq<T>, c: seq<T>, d: seq<T>)
    ensures a + (b + v + c) + d == (a + b) + v + (c + d)
  {
  }

  /** A position splits the contents of the tree. */
  lemma Position<T>(m: Memory<T>, root: Id, p: Id, k: nat)
    requires Linked(m, root, NULL) && p in m && Leads(m, p) && k <= |m[p].item|
    ensures Contents(m, root) == Left(m, root, p, k) + Mid(m, p, k) + Right(m, root, p, k)
  {
    hide Items, Woven, After, Inner, Outer, Mid;
    Zoom(m, root, p, k, Mid(m, p, k));
    NodeParts(m, p, k);
    GivenSame(m, root, p);
  }

  lemma GivenSame<T>(m: Memory<T>, root: Id, p: Id)
    requires Linked(m, root, NULL) && p in m
    ensures Items(m, map[p := Items(m, map[], p, m[p].depth)], root, m[root].depth) == Contents(m, root)
  {
    hide Items, Woven;
    var v := Items(m, map[], p, m[p].depth);
    var o := map[p := v];
    GivenItems(m, o, p, m[p].depth);
    forall y | y in m && y !in {p}
      ensures Alike(m, o, m, map[], {}, y)
    {
      assert Leads(m, y);
    }
    Agree(m, o, m, map[], {}, {p}, root, m[root].depth);
  }

  // ---------- Changing a few nodes ----------

  /** z keeps its place below a node that does not change. */
  ghost predicate Kept<T>(m: Memory<T>, m': Memory<T>, hole': Id, z: Id)
    requires z in m
  {
    && z in m' && z != hole'
    && m'[z].parent == m[z].parent && m'[z].k == m[z].k && m'[z].depth == m[z].depth
  }

  /** z hangs below a changed node. */
  ghost predicate Rehung<T>(m': Memory<T>, changed: set<Id>, z: Id)
    requires z in m'
  {
    m'[z].parent in changed && m'[z].parent in m' && z in m'[m'[z].parent].branch
  }

  /** If only the rows of a few nodes change, and those are sound, the whole tree is. */
  lemma Relinked<T>(m: Memory<T>, root: Id, hole: Id, m': Memory<T>, hole': Id, changed: set<Id>)
    requires Linked(m, root, hole)
    requires NULL !in m' && root in m' && m'[root].parent == NULL && root != hole'
    requires forall y | y in m && y !in changed :: Same(m, m', y)
    requires forall y | y in m' :: y in m || y in changed
    requires forall c | c in changed && c in m' :: Leads(m', c) && Wired(m', hole', c)
    requires forall z | z in m && z != hole && z != root && m[z].parent !in changed :: Kept(m, m', hole', z)
    requires forall z | z in m' && z != root && z != hole' ::
               (z in m && z != hole && m[z].parent !in changed) || Rehung(m', changed, z)
    requires forall z | z in m' && z != root && z != hole' :: m'[z].depth < m'[root].depth
    ensures Linked(m', root, hole')
  {
    forall y | y in m'
      ensures Leads(m', y) && Wired(m', hole', y)
    {
      if y !in changed {
        assert Same(m, m', y) && Leads(m, y) && Wired(m, hole, y);
        forall i | 0 <= i < |m[y].branch|
          ensures Kept(m, m', hole', m[y].branch[i]) && m[m[y].branch[i]].parent == y && m[m[y].branch[i]].k == i
        {
          BranchFacts(m, root, hole, y, i);
        }
      }
    }
    forall z | z in m' && z != root && z != hole'
      ensures Attached(m', z)
    {
      if z in m && z != hole && m[z].parent !in changed {
        assert Attached(m, z) && Kept(m, m', hole', z) && Same(m, m', m[z].parent);
      } else {
        assert Wired(m', hole', m'[z].parent);
      }
    }
  }

  /** A row whose branches hold the same in both memories, because nothing below changed. */
  lemma RowBelow<T>(m: Memory<T>, m': Memory<T>, d: nat, b: seq<Id>, dividers: seq<T>)
    requires forall y | y in m && m[y].depth <= d :: Same(m, m', y) && Leads(m, y)
    requires forall i | 0 <= i < |b| :: b[i] in m && m[b[i]].depth == d
    ensures Woven(m, map[], b, dividers, d) == Woven(m', map[], b, dividers, d)
  {
    hide Items, Woven;
    forall i | 0 <= i < |b|
      ensures SameItems(m, map[], m', map[], b[i], d)
    {
      LowerAlike(m, map[], m', map[], d + 1, b[i]);
    }
    WovenAlike(m, map[], m', map[], b, dividers, d);
  }

  /** If only node p, and the parents of nodes, change, the whole tree holds what it would with
      the new items of p given. */
  lemma OneChanged<T>(m: Memory<T>, root: Id, hole: Id, m': Memory<T>, p: Id)
    requires Linked(m, root, hole) && p in m
    requires forall y | y in m && y != p :: Same(m, m', y)
    ensures SameItems(m, map[p := Items(m', map[], p, m[p].depth)], m', map[], root, m[root].depth)
  {
    hide Items, Woven;
    var o := map[p := Items(m', map[], p, m[p].depth)];
    GivenItems(m, o, p, m[p].depth);
    forall y | y in m && y !in {} && y !in {p}
      ensures Alike(m, o, m', map[], {}, y)
    {
      assert Leads(m, y);
    }
    Agree(m, o, m', map[], {}, {p}, root, m[root].depth);
  }

  // ---------- Positions that are the same ----------

  /** The items before and after the position (p, k): in an inner node it is at the end of
      branch k, just before item k. */
  ghost function ItemsBefore<T>(m: Memory<T>, root: Id, p: Id, k: nat): seq<T>
    requires Linked(m, root, NULL) && p in m && Leads(m, p) && k <= |m[p].item|
  {
    Left(m, root, p, k) + Mid(m, p, k)
  }

  ghost function ItemsAfter<T>(m: Memory<T>, root: Id, p: Id, k: nat): seq<T>
    requires Linked(m, root, NULL) && p in m && Leads(m, p) && k <= |m[p].item|
  {
    Right(m, root, p, k)
  }

  /** Every position splits the items of the tree in two. */
  lemma PositionSplits<T>(m: Memory<T>, root: Id, p: Id, k: nat)
    requires Linked(m, root, NULL) && p in m && Leads(m, p) && k <= |m[p].item|
    ensures Contents(m, root) == ItemsBefore(m, root, p, k) + ItemsAfter(m, root, p, k)
  {
    hide Left, Right, Mid, Contents, Linked, Leads;
    Position(m, root, p, k);
  }

  lemma LeftOf<T>(m: Memory<T>, root: Id, p: Id, k: nat)
    requires Linked(m, root, NULL) && p in m && Leads(m, p) && k <= |m[p].item| && p != root
    ensures var q := m[p].parent; q in m && Leads(m, q) && m[p].k <= |m[q].item|
    ensures Left(m, root, p, k) == Left(m, root, m[p].parent, m[p].k) + Inner(m, p, k)
    ensures Right(m, root, p, k) == Outer(m, p, k) + Right(m, root, m[p].parent, m[p].k)
  {
    ParentIfAny(m, root, p);
    ParentIfAny(m, root, m[p].parent);
  }

  /** The end of branch k is the position (p, k). */
  lemma BranchEnd<T>(m: Memory<T>, root: Id, p: Id, k: nat)
    requires Linked(m, root, NULL) && p in m && Leads(m, p) && k <= |m[p].item| && m[p].depth > 0
    ensures k < |m[p].branch|
    ensures var c := m[p].branch[k];
            && c in m && c != root && Leads(m, c) && m[c].depth + 1 == m[p].depth && m[c].parent == p && m[c].k == k
            && ItemsBefore(m, root, c, |m[c].item|) == ItemsBefore(m, root, p, k)
            && ItemsAfter(m, root, c, |m[c].item|) == ItemsAfter(m, root, p, k)
  {
    BranchFacts(m, root, NULL, p, k);
    var c := m[p].branch[k];
    assert Leads(m, c);
    var n := |m[c].item|;
    hide Items, Woven, After, Linked, Left, Right;
    LeftOf(m, root, c, n);
    NodeParts(m, c, n);
    EndOuter(m, c);
    hide Inner, Outer, Leads;
    MidIs(m, p, k);
    assert Outer(m, c, n) == [];
    Regroup(Left(m, root, p, k), Inner(m, c, n), Mid(m, c, n));
    assert Inner(m, c, n) + Mid(m, c, n) + [] == Inner(m, c, n) + Mid(m, c, n);
    assert [] + Right(m, root, p, k) == Right(m, root, p, k);
  }

  lemma EndOuter<T>(m: Memory<T>, c: Id)
    requires c in m && Leads(m, c)
    ensures Outer(m, c, |m[c].item|) == [] && Inner(m, c, 0) == []
  {
    if m[c].depth > 0 {
      assert m[c].branch[..0] == [] && m[c].item[..0] == [];
    }
  }

  lemma MidIs<T>(m: Memory<T>, q: Id, k: nat)
    requires q in m && Leads(m, q) && k <= |m[q].item|
    ensures m[q].depth > 0 ==> k < |m[q].branch| && Mid(m, q, k) == Items(m, map[], m[q].branch[k], m[q].depth - 1)
    ensures m[q].depth == 0 ==> Mid(m, q, k) == []
  {
  }
}
