/** What removing from a leaf, refilling a node from its sibling, combining two nodes and dropping
an empty root do to a B-tree. */
module BtreeRemoval {
  import opened Basics
  import opened BtreeMemory
  import opened BtreeInsertion

  /** What the tree holds to the left of node p, and to its right. */
  ghost function Prefix<T>(m: Memory<T>, root: Id, p: Id): seq<T>
    requires Linked(m, root, NULL) && p in m
  {
    ParentIfAny(m, root, p);
    if p == root then [] else Left(m, root, m[p].parent, m[p].k)
  }

  ghost function Suffix<T>(m: Memory<T>, root: Id, p: Id): seq<T>
    requires Linked(m, root, NULL) && p in m
  {
    ParentIfAny(m, root, p);
    if p == root then [] else Right(m, root, m[p].parent, m[p].k)
  }

  lemma AroundPosition<T>(m: Memory<T>, root: Id, p: Id, k: nat)
    requires Linked(m, root, NULL) && p in m && Leads(m, p) && k <= |m[p].item|
    ensures Left(m, root, p, k) == Prefix(m, root, p) + Inner(m, p, k)
    ensures Right(m, root, p, k) == Outer(m, p, k) + Suffix(m, root, p)
  {
    hide Inner, Outer;
    ParentIfAny(m, root, p);
    assert [] + Inner(m, p, k) == Inner(m, p, k) && Outer(m, p, k) + [] == Outer(m, p, k);
  }

  /** Whatever node p is given to hold, the rest of the tree is around it. */
  lemma ZoomNode<T>(m: Memory<T>, root: Id, p: Id, v: seq<T>)
    requires Linked(m, root, NULL) && p in m
    ensures Items(m, map[p := v], root, m[root].depth) == Prefix(m, root, p) + v + Suffix(m, root, p)
  {
    hide Items, Woven, After, Inner, Outer, Linked, Left, Right;
    ParentIfAny(m, root, p);
    if p == root {
      GivenItems(m, map[p := v], p, m[root].depth);
      assert [] + v + [] == v;
    } else {
      var q, kq := m[p].parent, m[p].k;
      ParentIfAny(m, root, q);
      ParentHolds(m, root, NULL, p, v);
      GivenUp(m, root, p, v, Inner(m, q, kq) + v + Outer(m, q, kq));
      Zoom(m, root, q, kq, v);
    }
  }

  /** If only p changes, and the parents of nodes do not matter, the whole tree holds what p
      now does between what was around it. */
  lemma OneReplaced<T>(m: Memory<T>, root: Id, m': Memory<T>, p: Id)
    requires Linked(m, root, NULL) && p in m
    requires forall y | y in m && y != p :: Same(m, m', y)
    requires root in m' && m'[root].depth == m[root].depth
    ensures Contents(m', root) == Prefix(m, root, p) + Items(m', map[], p, m[p].depth) + Suffix(m, root, p)
  {
    hide Items, Woven, Linked, Prefix, Suffix;
    OneChanged(m, root, NULL, m', p);
    ZoomNode(m, root, p, Items(m', map[], p, m[p].depth));
  }

  // ---------- Removing an item from a leaf ----------

  function Without<T>(s: seq<T>, k: nat): seq<T>
    requires k < |s|
  {
    s[..k] + s[k + 1..]
  }

  /** Changing only a node's items, not their number unless it is a leaf, keeps the tree linked. */
  lemma ItemsChanged<T>(m: Memory<T>, root: Id, m': Memory<T>, p: Id, it: seq<T>)
    requires Linked(m, root, NULL) && p in m && m' == m[p := m[p].(item := it)]
    requires m[p].depth == 0 || |it| == |m[p].item|
    ensures Linked(m', root, NULL)
  {
    forall y | y in m'
      ensures Leads(m', y) && Wired(m', NULL, y)
    {
      assert Leads(m, y) && Wired(m, NULL, y);
    }
    forall y | y in m' && y != root
      ensures Attached(m', y) && m'[y].depth < m'[root].depth
    {
      assert Attached(m, y);
    }
  }

  lemma OthersSame<T>(m: Memory<T>, m': Memory<T>, p: Id, it: seq<T>)
    requires p in m && m' == m[p := m[p].(item := it)]
    ensures forall y | y in m && y != p :: Same(m, m', y)
    ensures forall y | y in m :: y in m' && m'[y].depth == m[y].depth && m'[y].branch == m[y].branch &&
                                 m'[y].parent == m[y].parent
  {
  }

  /** Exactly the item at the position goes. */
  lemma LeafItemRemoved<T>(m: Memory<T>, root: Id, m': Memory<T>, p: Id, k: nat)
    requires Linked(m, root, NULL) && p in m && m[p].depth == 0 && k < |m[p].item|
    requires m' == m[p := m[p].(item := Without(m[p].item, k))]
    ensures Leads(m, p) && Linked(m', root, NULL) && root in m'
    ensures ItemsAfter(m, root, p, k) != []
    ensures Contents(m', root) == ItemsBefore(m, root, p, k) + ItemsAfter(m, root, p, k)[1..]
  {
    ItemsChanged(m, root, m', p, Without(m[p].item, k));
    OthersSame(m, m', p, Without(m[p].item, k));
    assert Leads(m, p);
    var it := m[p].item;
    var pre, suf := Prefix(m, root, p), Suffix(m, root, p);
    hide Items, Linked, Prefix, Suffix, Left, Right;
    AroundPosition(m, root, p, k);
    OneReplaced(m, root, m', p);
    NodeItems(m', map[], p, 0);
    CutOne(pre, it, k, suf);
  }

  lemma CutOne<T>(pre: seq<T>, it: seq<T>, k: nat, suf: seq<T>)
    requires k < |it|
    ensures it[k..] + suf != [] && (it[k..] + suf)[1..] == it[k + 1..] + suf
    ensures pre + Without(it, k) + suf == (pre + it[..k] + []) + (it[k + 1..] + suf)
  {
  }

  // ---------- Replacing an item by its successor ----------

  /** The leaf at the left end of the subtree c, and what the subtree holds after that leaf. */
  ghost function Leftmost<T>(m: Memory<T>, c: Id, d: nat): Id
    decreases d
  {
    if d == 0 || c !in m || m[c].branch == [] then c else Leftmost(m, m[c].branch[0], d - 1)
  }

  ghost function Rest<T>(m: Memory<T>, c: Id, d: nat): seq<T>
    decreases d
  {
    if d == 0 || c !in m || !Leads(m, c) || m[c].branch == [] then []
    else Rest(m, m[c].branch[0], d - 1) + Outer(m, c, 0)
  }

  lemma FirstBranch<T>(m: Memory<T>, root: Id, c: Id, d: nat)
    requires Linked(m, root, NULL) && c in m && m[c].depth == d > 0
    ensures Leads(m, c) && |m[c].branch| > 0
    ensures var b := m[c].branch[0];
            && b in m && b != root && b != NULL && m[b].depth == d - 1 && m[b].parent == c && m[b].k == 0
            && Leftmost(m, c, d) == Leftmost(m, b, d - 1)
            && Rest(m, c, d) == Rest(m, b, d - 1) + Outer(m, c, 0)
            && Items(m, map[], c, d) == Items(m, map[], b, d - 1) + Outer(m, c, 0)
  {
    assert Leads(m, c) && Wired(m, NULL, c);
    BranchFacts(m, root, NULL, c, 0);
    hide Items, Woven, Linked, After, Inner, Outer;
    NodeParts(m, c, 0);
    MidIs(m, c, 0);
    EndOuter(m, c);
    var b := m[c].branch[0];
    assert [] + Items(m, map[], b, d - 1) == Items(m, map[], b, d - 1);
  }

  lemma {:induction false} LeftmostLeaf<T>(m: Memory<T>, root: Id, c: Id, d: nat)
    requires Linked(m, root, NULL) && c in m && m[c].depth == d
    ensures var s := Leftmost(m, c, d);
            && s in m && m[s].depth == 0 && (d > 0 ==> s != root)
            && Items(m, map[], c, d) == m[s].item + Rest(m, c, d)
    decreases d
  {
    hide Items, Woven, Linked, Outer;
    if d == 0 {
      NodeItems(m, map[], c, 0);
      assert m[c].item + [] == m[c].item;
    } else {
      FirstBranch(m, root, c, d);
      hide Rest, Leftmost;
      var b := m[c].branch[0];
      LeftmostLeaf(m, root, b, d - 1);
      Regroup(m[Leftmost(m, c, d)].item, Rest(m, b, d - 1), Outer(m, c, 0));
    }
  }

  /** Giving the leftmost leaf other items is giving the subtree those and the rest. */
  lemma {:induction false} LeftmostGiven<T>(m: Memory<T>, root: Id, c: Id, d: nat, w: seq<T>)
    requires Linked(m, root, NULL) && c in m && m[c].depth == d
    ensures Items(m, map[Leftmost(m, c, d) := w], root, m[root].depth) ==
            Items(m, map[c := w + Rest(m, c, d)], root, m[root].depth)
    decreases d
  {
    hide Items, Woven, Linked, Inner, Outer, Leads;
    if d == 0 {
      assert w + [] == w;
    } else {
      FirstBranch(m, root, c, d);
      hide Rest, Leftmost;
      var b := m[c].branch[0];
      LeftmostGiven(m, root, b, d - 1, w);
      var v := w + Rest(m, b, d - 1);
      ParentHolds(m, root, NULL, b, v);
      EndOuter(m, c);
      assert [] + v == v;
      GivenUp(m, root, b, v, v + Outer(m, c, 0));
      Regroup(w, Rest(m, b, d - 1), Outer(m, c, 0));
    }
  }

  lemma {:induction false} LeftmostSame<T>(m: Memory<T>, m': Memory<T>, c: Id, d: nat)
    requires m'.Keys == m.Keys && forall y | y in m :: m'[y].branch == m[y].branch
    ensures Leftmost(m', c, d) == Leftmost(m, c, d)
    decreases d
  {
    if !(d == 0 || c !in m || m[c].branch == []) {
      LeftmostSame(m, m', m[c].branch[0], d - 1);
    }
  }

  lemma GivenSameElse<T>(m: Memory<T>, root: Id, m': Memory<T>, p: Id, v: seq<T>)
    requires Linked(m, root, NULL) && p in m
    requires forall y | y in m && y != p :: Same(m, m', y)
    ensures Items(m', map[p := v], root, m[root].depth) == Items(m, map[p := v], root, m[root].depth)
  {
    LinkedFacts(m, root, NULL);
    hide Items, Woven, Linked, Leads, Same;
    var o := map[p := v];
    GivenItems(m, o, p, m[p].depth);
    GivenItems(m', o, p, m[p].depth);
    forall y | y in m && y !in {} && y !in {p}
      ensures Alike(m, o, m', o, {}, y)
    {
    }
    Agree(m, o, m', o, {}, {p}, root, m[root].depth);
  }

  /** Item k of inner node p is replaced by e. */
  ghost predicate Replaced<T>(m: Memory<T>, root: Id, m': Memory<T>, p: Id, k: nat, e: T) {
    && Linked(m, root, NULL) && p in m && m[p].depth > 0 && k < |m[p].item|
    && m' == m[p := m[p].(item := m[p].item[k := e])]
  }

  lemma ReplacedFacts<T>(m: Memory<T>, root: Id, m': Memory<T>, p: Id, k: nat, e: T)
    requires Replaced(m, root, m', p, k, e)
    ensures Linked(m, root, NULL) && Linked(m', root, NULL) && p in m && m[p].depth > 0 && k < |m[p].item|
    ensures Leads(m, p) && p in m' && Leads(m', p) && |m[p].branch| == |m[p].item| + 1
    ensures m'[p] == m[p].(item := m[p].item[k := e]) && m'.Keys == m.Keys
    ensures forall y | y in m && y != p :: Same(m, m', y) && m'[y] == m[y]
    ensures forall y | y in m :: m'[y].depth == m[y].depth && m'[y].branch == m[y].branch && Leads(m, y)
    ensures forall i: nat | i < |m[p].branch| :: m[p].branch[i] in m && m[m[p].branch[i]].depth == m[p].depth - 1
  {
    ItemsChanged(m, root, m', p, m[p].item[k := e]);
    OthersSame(m, m', p, m[p].item[k := e]);
    assert Leads(m, p) && Leads(m', p);
    LinkedFacts(m, root, NULL);
    forall i: nat | i < |m[p].branch|
      ensures m[p].branch[i] in m && m[m[p].branch[i]].depth == m[p].depth - 1
    {
      BranchFacts(m, root, NULL, p, i);
    }
  }

  lemma ReplacedInner<T>(m: Memory<T>, root: Id, m': Memory<T>, p: Id, k: nat, e: T)
    requires Replaced(m, root, m', p, k, e)
    ensures p in m && p in m' && Leads(m, p) && Leads(m', p) && k < |m[p].item| == |m'[p].item|
    ensures Inner(m', p, k + 1) == Inner(m, p, k) + Mid(m, p, k) + [e]
  {
    ReplacedFacts(m, root, m', p, k, e);
    var b, it, d, o: Given<T> := m[p].branch, m[p].item, m[p].depth - 1, map[];
    hide Items, Woven, Linked, Leads, Same, Replaced, Mid;
    InnerStep(m', b, it[k := e], k, d);
    BeforeChange(it, k, e);
    RowBelow(m, m', d, b[..k], it[..k]);
    LowerAlike(m, o, m', o, d + 1, b[k]);
    MidIs(m, p, k);
  }

  lemma BeforeChange<T>(it: seq<T>, k: nat, e: T)
    requires k < |it|
    ensures it[k := e][..k] == it[..k]
  {
  }

  lemma InnerStep<T>(m: Memory<T>, b: seq<Id>, it: seq<T>, k: nat, d: nat)
    requires k < |b| && k < |it|
    ensures Woven(m, map[], b[..k + 1], it[..k + 1], d) ==
            Woven(m, map[], b[..k], it[..k], d) + Items(m, map[], b[k], d) + [it[k]]
  {
    hide Items, Woven;
    assert b[..k + 1] == b[..k] + [b[k]] && it[..k + 1] == it[..k] + [it[k]];
    WovenJoin(m, map[], b[..k], it[..k], [b[k]], [it[k]], d);
    WovenOne(m, b[k], it[k], d);
    Regroup(Woven(m, map[], b[..k], it[..k], d), Items(m, map[], b[k], d), [it[k]]);
  }

  lemma WovenOne<T>(m: Memory<T>, y: Id, e: T, d: nat)
    ensures Woven(m, map[], [y], [e], d) == Items(m, map[], y, d) + [e]
  {
    hide Items, Woven;
    WovenFirst(m, map[], y, [], e, [], d);
    WovenEmpty(m, map[], d);
    assert [y] + [] == [y] && [e] + [] == [e];
    assert Items(m, map[], y, d) + [e] + [] == Items(m, map[], y, d) + [e];
  }

  lemma ReplacedOuter<T>(m: Memory<T>, root: Id, m': Memory<T>, p: Id, k: nat, e: T)
    requires Replaced(m, root, m', p, k, e)
    ensures p in m && p in m' && Leads(m, p) && Leads(m', p) && k < |m[p].item| == |m'[p].item|
    ensures Outer(m', p, k + 1) == Outer(m, p, k + 1)
  {
    ReplacedFacts(m, root, m', p, k, e);
    var b, it, d := m[p].branch, m[p].item, m[p].depth - 1;
    hide Items, Woven, Linked, Leads, Same, Replaced;
    if k + 1 < |it| {
      assert m'[p].item[k + 2..] == it[k + 2..] && m'[p].item[k + 1] == it[k + 1];
      RowBelow(m, m', d, b[k + 2..], it[k + 2..]);
    }
  }

  lemma OuterFirst<T>(m: Memory<T>, p: Id, k: nat)
    requires p in m && Leads(m, p) && m[p].depth > 0 && k < |m[p].item|
    ensures Outer(m, p, k) == [m[p].item[k]] + (Items(m, map[], m[p].branch[k + 1], m[p].depth - 1) +
                                                Outer(m, p, k + 1))
  {
    hide Items, Woven;
    WovenFrom(m, map[], m[p].branch, m[p].item, k + 1, m[p].depth - 1);
  }

  /** What the tree holds once the successor is gone from leaf s, seen from p. */
  lemma SuccessorGone<T>(m: Memory<T>, root: Id, m1: Memory<T>, p: Id, k: nat, e: T, s: Id, m2: Memory<T>)
    requires Replaced(m, root, m1, p, k, e) && Leads(m, p) && k + 1 < |m[p].branch|
    requires s == Leftmost(m, m[p].branch[k + 1], m[p].depth - 1) && s in m && s != p && m[s].item != []
    requires m[s].depth == 0
    requires m2 == m1[s := m1[s].(item := m1[s].item[1..])]
    ensures Linked(m2, root, NULL) && root in m2 && p in m1 && Leads(m1, p) && k < |m1[p].item|
    ensures var c := m[p].branch[k + 1];
            Contents(m2, root) ==
            Prefix(m, root, p) +
            (Inner(m1, p, k + 1) + (m[s].item[1..] + Rest(m1, c, m[p].depth - 1)) + Outer(m1, p, k + 1)) +
            Suffix(m, root, p)
  {
    hide *;
    ReplacedFacts(m, root, m1, p, k, e);
    BranchFacts(m, root, NULL, p, k + 1);
    var w, c, d := m[s].item[1..], m[p].branch[k + 1], m[p].depth - 1;
    LeftmostSame(m, m1, c, d);
    LinkedFacts(m, root, NULL);
    LeafShortened(m1, root, c, d, s, w, m2);
    var v := Inner(m1, p, k + 1) + (w + Rest(m1, c, d)) + Outer(m1, p, k + 1);
    BranchGiven(m1, root, p, k + 1, w + Rest(m1, c, d));
    GivenSameElse(m, root, m1, p, v);
    ZoomNode(m, root, p, v);
  }

  /** The leftmost leaf of subtree c gets items w. */
  lemma LeafShortened<T>(m: Memory<T>, root: Id, c: Id, d: nat, s: Id, w: seq<T>, m': Memory<T>)
    requires Linked(m, root, NULL) && c in m && m[c].depth == d && s == Leftmost(m, c, d)
    requires s in m && m' == m[s := m[s].(item := w)] && m[s].depth == 0
    ensures Linked(m', root, NULL) && root in m'
    ensures root in m && Contents(m', root) == Items(m, map[c := w + Rest(m, c, d)], root, m[root].depth)
  {
    hide Items, Linked, Leads, Same, Leftmost, Rest;
    OthersSame(m, m', s, w);
    ItemsChanged(m, root, m', s, w);
    LinkedFacts(m, root, NULL);
    OneChanged(m, root, NULL, m', s);
    NodeItems(m', map[], s, 0);
    LeftmostGiven(m, root, c, d, w);
  }

  /** Giving branch k of p items v is giving p those, with its own around them. */
  lemma BranchGiven<T>(m: Memory<T>, root: Id, p: Id, k: nat, v: seq<T>)
    requires Linked(m, root, NULL) && p in m && Leads(m, p) && k < |m[p].branch|
    ensures k <= |m[p].item| && root in m
    ensures Items(m, map[m[p].branch[k] := v], root, m[root].depth) ==
            Items(m, map[p := Inner(m, p, k) + v + Outer(m, p, k)], root, m[root].depth)
  {
    LinkedFacts(m, root, NULL);
    BranchFacts(m, root, NULL, p, k);
    assert k <= |m[p].item|;
    hide Items, Linked, Leads, Inner, Outer;
    ParentHolds(m, root, NULL, m[p].branch[k], v);
    GivenUp(m, root, m[p].branch[k], v, Inner(m, p, k) + v + Outer(m, p, k));
  }

  /** Removing the successor of item k of p from its leaf, and putting it in place of item k,
      removes exactly item k. */
  lemma SuccessorRemoved<T>(m: Memory<T>, root: Id, m1: Memory<T>, p: Id, k: nat, s: Id, m2: Memory<T>)
    requires Linked(m, root, NULL) && p in m && Leads(m, p) && m[p].depth > 0 && k < |m[p].item|
    requires s == Leftmost(m, m[p].branch[k + 1], m[p].depth - 1) && s in m && s != p && m[s].item != []
    requires m1 == m[p := m[p].(item := m[p].item[k := m[s].item[0]])]
    requires m2 == m1[s := m1[s].(item := m1[s].item[1..])]
    ensures Linked(m2, root, NULL) && root in m2
    ensures ItemsAfter(m, root, p, k) != []
    ensures Contents(m2, root) == ItemsBefore(m, root, p, k) + ItemsAfter(m, root, p, k)[1..]
  {
    assert k + 1 < |m[p].branch|;
    hide *;
    var e := m[s].item[0];
    IsReplaced(m, root, m1, p, k, e);
    SuccessorLeaf(m, root, m1, p, k, e, s);
    SuccessorGone(m, root, m1, p, k, e, s, m2);
    RowAfterwards(m, root, m1, p, k, e, s);
  }

  lemma RowAfterwards<T>(m: Memory<T>, root: Id, m1: Memory<T>, p: Id, k: nat, e: T, s: Id)
    requires Replaced(m, root, m1, p, k, e) && Leads(m, p) && k + 1 < |m[p].branch| && p in m1 && Leads(m1, p)
    requires k < |m1[p].item|
    requires s in m && m[s].item != [] && e == m[s].item[0]
    requires Linked(m, root, NULL)
    requires Items(m, map[], m[p].branch[k + 1], m[p].depth - 1) ==
             m[s].item + Rest(m1, m[p].branch[k + 1], m[p].depth - 1)
    ensures var rest := Rest(m1, m[p].branch[k + 1], m[p].depth - 1);
            && k < |m[p].item| && ItemsAfter(m, root, p, k) != []
            && Prefix(m, root, p) + (Inner(m1, p, k + 1) + (m[s].item[1..] + rest) + Outer(m1, p, k + 1)) + Suffix(m,
                root, p) ==
               ItemsBefore(m, root, p, k) + ItemsAfter(m, root, p, k)[1..]
  {
    ReplacedInner(m, root, m1, p, k, e);
    ReplacedOuter(m, root, m1, p, k, e);
    hide *;
    OuterFirst(m, p, k);
    PositionParts(m, root, p, k);
    var rest := Rest(m1, m[p].branch[k + 1], m[p].depth - 1);
    Conclude(Prefix(m, root, p) + (Inner(m1, p, k + 1) + (m[s].item[1..] + rest) + Outer(m1, p, k + 1)) + Suffix(m,
        root, p),
             ItemsBefore(m, root, p, k), ItemsAfter(m, root, p, k), Prefix(m, root, p), Inner(m, p, k), Mid(m, p, k),
             m[p].item[k], e, m[s].item[1..], rest, Outer(m, p, k), Outer(m, p, k + 1), Suffix(m, root, p), m[s].item,
             Items(m, map[], m[p].branch[k + 1], m[p].depth - 1), Inner(m1, p, k + 1));
  }

  lemma IsReplaced<T>(m: Memory<T>, root: Id, m1: Memory<T>, p: Id, k: nat, e: T)
    requires Linked(m, root, NULL) && p in m && Leads(m, p) && m[p].depth > 0 && k < |m[p].item|
    requires m1 == m[p := m[p].(item := m[p].item[k := e])]
    ensures Replaced(m, root, m1, p, k, e) && k + 1 < |m[p].branch|
  {
  }

  lemma PositionParts<T>(m: Memory<T>, root: Id, p: Id, k: nat)
    requires Linked(m, root, NULL) && p in m && Leads(m, p) && k <= |m[p].item|
    ensures ItemsBefore(m, root, p, k) == Prefix(m, root, p) + Inner(m, p, k) + Mid(m, p, k)
    ensures ItemsAfter(m, root, p, k) == Outer(m, p, k) + Suffix(m, root, p)
  {
    hide Linked, Leads, Left, Right, Inner, Mid, Outer, Prefix, Suffix;
    AroundPosition(m, root, p, k);
  }

  lemma SuccessorLeaf<T>(m: Memory<T>, root: Id, m1: Memory<T>, p: Id, k: nat, e: T, s: Id)
    requires Replaced(m, root, m1, p, k, e) && k + 1 < |m[p].branch|
    requires s == Leftmost(m, m[p].branch[k + 1], m[p].depth - 1) && s != p
    ensures s in m && m[s].depth == 0
    ensures Items(m, map[], m[p].branch[k + 1], m[p].depth - 1) ==
             m[s].item + Rest(m1, m[p].branch[k + 1], m[p].depth - 1)
  {
    hide *;
    ReplacedFacts(m, root, m1, p, k, e);
    var c, d := m[p].branch[k + 1], m[p].depth - 1;
    LeftmostSame(m, m1, c, d);
    LeftmostLeaf(m1, root, c, d);
    LowerItems(m, m1, d + 1, c);
  }

  lemma LowerItems<T>(m: Memory<T>, m': Memory<T>, d: nat, x: Id)
    requires forall y | y in m && m[y].depth < d :: Same(m, m', y) && Leads(m, y)
    requires x in m && m[x].depth < d
    ensures Items(m, map[], x, m[x].depth) == Items(m', map[], x, m[x].depth)
  {
    hide Items, Same, Leads;
    LowerAlike(m, map[], m', map[], d, x);
  }

  lemma Conclude<T>(all: seq<T>, before: seq<T>, after: seq<T>,
                    pre: seq<T>, inner: seq<T>, mid: seq<T>, x: T, e: T, w: seq<T>, rest: seq<T>, outer: seq<T>,
                    outer': seq<T>,
                    suf: seq<T>, leaf: seq<T>, sub: seq<T>, inner': seq<T>)
    requires leaf != [] && e == leaf[0] && w == leaf[1..] && sub == leaf + rest
    requires inner' == inner + mid + [e] && outer == [x] + (sub + outer')
    requires before == pre + inner + mid && after == outer + suf
    requires all == pre + (inner' + (w + rest) + outer') + suf
    ensures after != [] && all == before + after[1..]
  {
    assert sub == [e] + (w + rest);
    assert after[1..] == sub + outer' + suf;
  }
}
