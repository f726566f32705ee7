/** What inserting into a node, splitting it and growing a new root do to a B-tree. */
module BtreeInsertion {
  import opened Basics
  import opened BtreeMemory

  /** The row of a node with item x, and branch xr to its right, put in at position k. */
  function RowItems<T>(n: Node<T>, x: T, k: nat): seq<T>
    requires k <= |n.item|
  {
    n.item[..k] + [x] + n.item[k..]
  }

  function RowBranches<T>(n: Node<T>, xr: Id, k: nat): seq<Id>
    requires n.depth > 0 ==> k < |n.branch|
  {
    if n.depth == 0 then [] else n.branch[..k + 1] + [xr] + n.branch[k + 1..]
  }

  /** What node p would hold with x and xr put in at position k. */
  ghost function Pending<T>(m: Memory<T>, p: Id, k: nat, x: T, xr: Id): seq<T>
    requires p in m && Leads(m, p) && k <= |m[p].item|
  {
    if m[p].depth == 0 then RowItems(m[p], x, k)
    else Woven(m, map[], RowBranches(m[p], xr, k), RowItems(m[p], x, k), m[p].depth - 1)
  }

  lemma PendingParts<T>(m: Memory<T>, p: Id, k: nat, x: T, xr: Id)
    requires p in m && Leads(m, p) && k <= |m[p].item|
    ensures m[p].depth == 0 ==> Pending(m, p, k, x, xr) == Inner(m, p, k) + [x] + Outer(m, p, k)
    ensures m[p].depth > 0 ==>
              Pending(m, p, k, x, xr) ==
              Inner(m, p, k) + (Mid(m, p, k) + [x] + Items(m, map[], xr, m[p].depth - 1)) + Outer(m, p, k)
  {
    if m[p].depth > 0 {
      var b, it, e, o: Given<T> := m[p].branch, m[p].item, m[p].depth - 1, map[];
      hide Items, Woven, After;
      var b', it' := [xr] + b[k + 1..], it[k..];
      assert RowBranches(m[p], xr, k) == b[..k] + ([b[k]] + b') by {
        assert b[..k + 1] == b[..k] + [b[k]];
      }
      assert RowItems(m[p], x, k) == it[..k] + ([x] + it');
      WovenJoin(m, o, b[..k], it[..k], [b[k]] + b', [x] + it', e);
      WovenFirst(m, o, b[k], b', x, it', e);
      XrThenAfter(m, b, it, k, xr, e);
      Nest5(Inner(m, p, k), Mid(m, p, k), [x], Items(m, o, xr, e), Outer(m, p, k));
    }
  }

  lemma Nest5<T>(a: seq<T>, b: seq<T>, x: seq<T>, c: seq<T>, d: seq<T>)
    ensures a + (b + x + (c + d)) == a + (b + x + c) + d
  {
  }

  lemma XrThenAfter<T>(m: Memory<T>, b: seq<Id>, it: seq<T>, k: nat, xr: Id, e: nat)
    requires k < |b| && |b| == |it| + 1
    ensures Woven(m, map[], [xr] + b[k + 1..], it[k..], e) == Items(m, map[], xr, e) + After(m, map[], b, it, k, e)
  {
    hide Items, Woven;
    if k == |it| {
      assert [xr] + b[k + 1..] == [xr] && it[k..] == [];
      WovenLast(m, map[], xr, e);
    } else {
      assert it[k..] == [it[k]] + it[k + 1..];
      WovenFirst(m, map[], xr, b[k + 1..], it[k], it[k + 1..], e);
      Regroup(Items(m, map[], xr, e), [it[k]], Woven(m, map[], b[k + 1..], it[k + 1..], e));
    }
  }

  /** Item x and its right branch xr are about to go into node p at position k.  In a leaf there
      is no branch. */
  ghost predicate Ready<T>(m: Memory<T>, root: Id, p: Id, k: nat, xr: Id) {
    && Linked(m, root, xr) && p in m && p != xr && Leads(m, p) && k <= |m[p].item|
    && (if m[p].depth == 0 then xr == NULL else xr in m && m[xr].depth + 1 == m[p].depth)
  }

  /** Branches from a node's index on have it as their parent, and their index; no other record
      has changed. */
  ghost predicate Adopted<T>(m: Memory<T>, m': Memory<T>, p: Id, from: nat, to: nat) {
    && p in m && from <= to <= |m[p].branch| && m'.Keys == m.Keys
    && (forall y | y in m :: Same(m, m', y))
    && (forall i | from <= i < to :: m[p].branch[i] in m && m'[m[p].branch[i]].parent == p && m'[m[p].branch[i]].k == i)
    && (forall y | y in m && !Among(m[p].branch, from, to, y) :: m'[y] == m[y])
  }

  ghost predicate Among(b: seq<Id>, from: nat, to: nat, y: Id) {
    exists i :: from <= i < to && i < |b| && b[i] == y
  }

  ghost predicate Distinct(b: seq<Id>) {
    forall i, j | 0 <= i < j < |b| :: b[i] != b[j]
  }

  lemma RowAt<T>(n: Node<T>, xr: Id, k: nat)
    requires n.depth > 0 ==> k < |n.branch|
    ensures var b := RowBranches(n, xr, k);
            && |b| == (if n.depth == 0 then 0 else |n.branch| + 1)
            && forall i | 0 <= i < |b| :: b[i] == if i <= k then n.branch[i] else if i == k + 1 then xr
               else n.branch[i - 1]
  {
  }

  /** The branches of the row are nodes one level below p, all different. */
  lemma RowKid<T>(m: Memory<T>, root: Id, p: Id, k: nat, xr: Id, i: nat)
    requires Ready(m, root, p, k, xr) && i < |RowBranches(m[p], xr, k)|
    ensures var y := RowBranches(m[p], xr, k)[i];
            && y in m && y != p && y != root && y != NULL && m[y].depth + 1 == m[p].depth
            && (y != xr ==> m[y].parent == p && m[y].k == (if i <= k then i else i - 1))
            && (y == xr <==> i == k + 1)
  {
    RowAt(m[p], xr, k);
    RootFacts(m, root, xr, p);
    if i != k + 1 {
      BranchFacts(m, root, xr, p, if i <= k then i else i - 1);
    }
    hide RowBranches;
  }

  lemma RowDistinct<T>(m: Memory<T>, root: Id, p: Id, k: nat, xr: Id)
    requires Ready(m, root, p, k, xr)
    ensures Distinct(RowBranches(m[p], xr, k))
  {
    var b := RowBranches(m[p], xr, k);
    forall i: nat | i < |b|
      ensures b[i] != xr ==> m[b[i]].k == (if i <= k then i else i - 1)
      ensures b[i] in m && (b[i] == xr <==> i == k + 1)
    {
      RowKid(m, root, p, k, xr, i);
    }
    hide Ready, RowBranches;
  }

  lemma RowKids<T>(m: Memory<T>, root: Id, p: Id, k: nat, xr: Id)
    requires Ready(m, root, p, k, xr)
    ensures forall y | y in RowBranches(m[p], xr, k) ::
              y in m && y != p && y != root && y != NULL && m[y].depth + 1 == m[p].depth &&
              (y != xr ==> m[y].parent == p)
  {
    var b := RowBranches(m[p], xr, k);
    forall y | y in b
      ensures y in m && y != p && y != root && y != NULL && m[y].depth + 1 == m[p].depth
      ensures (y != xr ==> m[y].parent == p)
    {
      var i: nat :| i < |b| && b[i] == y;
      hide RowBranches, Linked;
      RowKid(m, root, p, k, xr, i);
    }
  }

  /** Every node below p is in the row, and so is xr. */
  lemma RowHas<T>(m: Memory<T>, root: Id, p: Id, k: nat, xr: Id, y: Id)
    requires Ready(m, root, p, k, xr) && y in m && (if y == xr then m[p].depth > 0 else m[y].parent == p)
    ensures y in RowBranches(m[p], xr, k)
  {
    RowAt(m[p], xr, k);
    var b := RowBranches(m[p], xr, k);
    if y == xr {
      assert b[k + 1] == xr;
    } else {
      RootFacts(m, root, xr, y);
      assert Attached(m, y) && p != NULL;
      hide Linked;
      assert b[if m[y].k <= k then m[y].k else m[y].k + 1] == y;
    }
  }

  /** Memory m' is m with x and xr put into p at position k. */
  ghost predicate Inserted<T>(m: Memory<T>, m': Memory<T>, p: Id, k: nat, x: T, xr: Id) {
    && p in m && Leads(m, p) && k <= |m[p].item|
    && Adopted(m[p := m[p].(item := RowItems(m[p], x, k), branch := RowBranches(m[p], xr, k))], m', p,
               if m[p].depth == 0 then 0 else k + 1, |RowBranches(m[p], xr, k)|)
  }

  lemma InsertedFacts<T>(m: Memory<T>, root: Id, m': Memory<T>, p: Id, k: nat, x: T, xr: Id)
    requires Ready(m, root, p, k, xr) && Inserted(m, m', p, k, x, xr)
    ensures m'.Keys == m.Keys && forall y | y in m && y != p :: Same(m, m', y)
    ensures m'[p] == m[p].(item := RowItems(m[p], x, k), branch := RowBranches(m[p], xr, k))
    ensures forall y | y in m && y !in m'[p].branch && y != p :: m'[y] == m[y]
  {
    RowKids(m, root, p, k, xr);
    var b := RowBranches(m[p], xr, k);
    assert p !in b;
    hide Linked, RowBranches, RowItems, Ready, Leads;
    var m1 := m[p := m[p].(item := RowItems(m[p], x, k), branch := b)];
    AdoptedFacts(m1, m', p, if m[p].depth == 0 then 0 else k + 1, |b|);
    forall y | y in m
      ensures y != p ==> Same(m, m', y)
    {
      assert Same(m1, m', y);
    }
  }

  lemma AdoptedFacts<T>(m: Memory<T>, m': Memory<T>, p: Id, from: nat, to: nat)
    requires Adopted(m, m', p, from, to)
    ensures m'.Keys == m.Keys && forall y | y in m :: Same(m, m', y)
    ensures forall y | y in m && y !in m[p].branch :: m'[y] == m[y]
  {
    forall y | y in m && y !in m[p].branch
      ensures m'[y] == m[y]
    {
      assert !Among(m[p].branch, from, to, y);
    }
  }

  lemma InsertedKid<T>(m: Memory<T>, root: Id, m': Memory<T>, p: Id, k: nat, x: T, xr: Id, i: nat)
    requires Ready(m, root, p, k, xr) && Inserted(m, m', p, k, x, xr) && i < |RowBranches(m[p], xr, k)|
    ensures var y := RowBranches(m[p], xr, k)[i];
            y in m' && y != NULL && m'[y].parent == p && m'[y].k == i && m'[y].depth + 1 == m[p].depth
  {
    RowKid(m, root, p, k, xr, i);
    InsertedFacts(m, root, m', p, k, x, xr);
    RowDistinct(m, root, p, k, xr);
    ReadyFacts(m, root, p, k, xr);
    hide Linked, RowBranches, RowItems, Ready, Leads;
    var b := RowBranches(m[p], xr, k);
    if i <= k && m[p].depth > 0 {
      assert !Among(b, k + 1, |b|, b[i]);
    }
  }

  lemma InsertedWired<T>(m: Memory<T>, root: Id, m': Memory<T>, p: Id, k: nat, x: T, xr: Id)
    requires Ready(m, root, p, k, xr) && Inserted(m, m', p, k, x, xr)
    ensures p in m' && Leads(m', p) && Wired(m', NULL, p)
  {
    hide Inserted, RowItems, RowBranches, Linked, Ready, Same;
    ReadyFacts(m, root, p, k, xr);
    InsertedFacts(m, root, m', p, k, x, xr);
    RowSize(m[p], x, xr, k);
    forall i: nat | i < |m'[p].branch|
      ensures var y := m'[p].branch[i];
              y in m' && y != NULL && m'[y].parent == p && m'[y].k == i && m'[y].depth + 1 == m[p].depth
    {
      InsertedKid(m, root, m', p, k, x, xr, i);
    }
  }

  lemma InsertedLinked<T>(m: Memory<T>, root: Id, m': Memory<T>, p: Id, k: nat, x: T, xr: Id)
    requires Ready(m, root, p, k, xr) && Inserted(m, m', p, k, x, xr)
    ensures Linked(m', root, NULL)
  {
    hide Inserted, RowItems, RowBranches, Linked, Ready, Leads, Wired, Same;
    ReadyFacts(m, root, p, k, xr);
    InsertedFacts(m, root, m', p, k, x, xr);
    InsertedWired(m, root, m', p, k, x, xr);
    RowKids(m, root, p, k, xr);
    LinkedFacts(m, root, xr);
    RootFacts(m, root, xr, p);
    SameDepths(m, m', p);
    forall z | z in m && z != xr && z != root && m[z].parent !in {p}
      ensures Kept(m, m', NULL, z)
    {
      assert z !in m'[p].branch;
    }
    forall z | z in m' && z != root && (z == xr || m[z].parent in {p})
      ensures Rehung(m', {p}, z)
    {
      RowHas(m, root, p, k, xr, z);
      var i: nat :| i < |m'[p].branch| && m'[p].branch[i] == z;
      InsertedKid(m, root, m', p, k, x, xr, i);
    }
    Relinked(m, root, xr, m', NULL, {p});
  }

  lemma SameDepths<T>(m: Memory<T>, m': Memory<T>, p: Id)
    requires p in m && p in m' && m'[p].depth == m[p].depth
    requires forall y | y in m && y != p :: Same(m, m', y)
    ensures forall y | y in m :: y in m' && m'[y].depth == m[y].depth
  {
  }

  lemma LinkedFacts<T>(m: Memory<T>, root: Id, hole: Id)
    requires Linked(m, root, hole)
    ensures NULL !in m && root in m && root != NULL && m[root].parent == NULL && root != hole
    ensures forall y | y in m && y != root && y != hole :: m[y].depth < m[root].depth
    ensures forall y | y in m :: Leads(m, y)
  {
  }

  lemma RowSize<T>(n: Node<T>, x: T, xr: Id, k: nat)
    requires k <= |n.item| && |n.branch| == if n.depth == 0 then 0 else |n.item| + 1
    ensures |RowItems(n, x, k)| == |n.item| + 1
    ensures |RowBranches(n, xr, k)| == if n.depth == 0 then 0 else |n.item| + 2
  {
  }

  lemma PendingIs<T>(m: Memory<T>, p: Id, k: nat, x: T, xr: Id)
    requires p in m && Leads(m, p) && k <= |m[p].item|
    ensures m[p].depth == 0 ==> Pending(m, p, k, x, xr) == RowItems(m[p], x, k)
    ensures m[p].depth > 0 ==>
              Pending(m, p, k, x, xr) == Woven(m, map[], RowBranches(m[p], xr, k), RowItems(m[p], x, k), m[p].depth - 1)
  {
  }

  lemma ReadyFacts<T>(m: Memory<T>, root: Id, p: Id, k: nat, xr: Id)
    requires Ready(m, root, p, k, xr)
    ensures Linked(m, root, xr) && p in m && p != xr && p != NULL && Leads(m, p) && k <= |m[p].item|
    ensures m[p].depth > 0 ==> k < |m[p].branch| && xr in m && m[xr].depth + 1 == m[p].depth
    ensures m[p].depth == 0 ==> xr == NULL
    ensures |m[p].branch| == if m[p].depth == 0 then 0 else |m[p].item| + 1
  {
  }

  lemma InsertedHere<T>(m: Memory<T>, root: Id, m': Memory<T>, p: Id, k: nat, x: T, xr: Id)
    requires Ready(m, root, p, k, xr) && Inserted(m, m', p, k, x, xr)
    ensures p in m' && Items(m', map[], p, m[p].depth) == Pending(m, p, k, x, xr)
  {
    hide *;
    ReadyFacts(m, root, p, k, xr);
    InsertedFacts(m, root, m', p, k, x, xr);
    var d, b := m[p].depth, RowBranches(m[p], xr, k);
    NodeItems(m', map[], p, d);
    PendingIs(m, p, k, x, xr);
    if d > 0 {
      forall i: nat | i < |b|
        ensures b[i] in m && m[b[i]].depth == d - 1
      {
        RowKid(m, root, p, k, xr, i);
      }
      LinkedFacts(m, root, xr);
      RowBelow(m, m', d - 1, b, m'[p].item);
    }
  }

  lemma InsertedItems<T>(m: Memory<T>, root: Id, m': Memory<T>, p: Id, k: nat, x: T, xr: Id)
    requires Ready(m, root, p, k, xr) && Inserted(m, m', p, k, x, xr)
    ensures Contents(m', root) == Items(m, map[p := Pending(m, p, k, x, xr)], root, m[root].depth)
  {
    hide Items, Woven, Inserted, RowItems, RowBranches, Linked, Leads, Pending;
    InsertedFacts(m, root, m', p, k, x, xr);
    InsertedHere(m, root, m', p, k, x, xr);
    LinkedFacts(m, root, xr);
    OneChanged(m, root, xr, m', p);
    assert Same(m, m', root) || root == p;
  }

  // ---------- Splitting ----------

  /** Memory m' is m with x and xr put into the full node p, whose row is then shared between p
      and the new node r; x' is the median. */
  ghost predicate Split<T>(m: Memory<T>, m': Memory<T>, p: Id, k: nat, x: T, xr: Id, x': T, r: Id) {
    && p in m && Leads(m, p) && k <= |m[p].item| == MAX
    && r !in m && r != NULL && m'.Keys == m.Keys + {r}
    && var it, b := RowItems(m[p], x, k), RowBranches(m[p], xr, k);
    && m'[p] == m[p].(item := it[..MIN], branch := if b == [] then [] else b[..MIN + 1])
    && x' == it[MIN]
    && m'[r].item == it[MIN + 1..] && m'[r].branch == (if b == [] then [] else b[MIN + 1..]) &&
       m'[r].depth == m[p].depth
    && (forall i | 0 <= i < |b| :: b[i] in m &&
          (if i <= MIN then m'[b[i]].parent == p && m'[b[i]].k == i
           else m'[b[i]].parent == r && m'[b[i]].k == i - MIN - 1))
    && (forall y | y in m && y != p :: Same(m, m', y) && (y !in b ==> m'[y] == m[y]))
  }

  lemma SplitFacts<T>(m: Memory<T>, root: Id, m': Memory<T>, p: Id, k: nat, x: T, xr: Id, x': T, r: Id)
    requires Ready(m, root, p, k, xr) && Split(m, m', p, k, x, xr, x', r)
    ensures |m[p].item| == MAX && r !in m && r != NULL && m'.Keys == m.Keys + {r}
    ensures m'[p].depth == m[p].depth && m'[p].parent == m[p].parent && m'[p].k == m[p].k && m'[r].depth == m[p].depth
    ensures |m'[p].item| == MIN == |m'[r].item|
    ensures forall y | y in m && y != p :: Same(m, m', y)
    ensures forall y | y in m && y != p && y !in RowBranches(m[p], xr, k) :: m'[y] == m[y]
    ensures RowItems(m[p], x, k) == m'[p].item + [x'] + m'[r].item
    ensures m[p].depth == 0 ==> RowBranches(m[p], xr, k) == [] == m'[p].branch == m'[r].branch
    ensures m[p].depth > 0 ==>
              RowBranches(m[p], xr, k) == m'[p].branch + m'[r].branch && |m'[p].branch| == MIN + 1 == |m'[r].branch|
  {
    var it, b := RowItems(m[p], x, k), RowBranches(m[p], xr, k);
    ReadyFacts(m, root, p, k, xr);
    RowSize(m[p], x, xr, k);
    hide Ready, Leads, Same, Linked, RowItems, RowBranches;
    CutAt(it, MIN);
    if m[p].depth > 0 {
      CutAt(b, MIN + 1);
    }
  }

  lemma CutAt<U>(s: seq<U>, n: nat)
    requires n < |s|
    ensures s == s[..n] + [s[n]] + s[n + 1..] && s == s[..n] + s[n..]
  {
  }

  lemma SplitKid<T>(m: Memory<T>, root: Id, m': Memory<T>, p: Id, k: nat, x: T, xr: Id, x': T, r: Id, i: nat)
    requires Ready(m, root, p, k, xr) && Split(m, m', p, k, x, xr, x', r) && i < |RowBranches(m[p], xr, k)|
    ensures var y := RowBranches(m[p], xr, k)[i];
            && y in m' && y != r && m'[y].depth + 1 == m[p].depth
            && (i <= MIN ==> m'[y].parent == p && m'[y].k == i)
            && (i > MIN ==> m'[y].parent == r && m'[y].k == i - MIN - 1)
  {
    RowKid(m, root, p, k, xr, i);
    hide RowBranches, RowItems, Ready, Leads, Linked;
  }

  lemma SplitWired<T>(m: Memory<T>, root: Id, m': Memory<T>, p: Id, k: nat, x: T, xr: Id, x': T, r: Id)
    requires Ready(m, root, p, k, xr) && Split(m, m', p, k, x, xr, x', r)
    ensures p in m' && r in m' && Leads(m', p) && Wired(m', r, p) && Leads(m', r) && Wired(m', r, r)
  {
    hide Split, Ready, Same, Linked, RowItems, RowBranches;
    ReadyFacts(m, root, p, k, xr);
    SplitFacts(m, root, m', p, k, x, xr, x', r);
    var b := RowBranches(m[p], xr, k);
    forall i: nat | i < |m'[p].branch|
      ensures var y := m'[p].branch[i];
              y in m' && y != r && m'[y].depth + 1 == m[p].depth && m'[y].parent == p && m'[y].k == i
    {
      assert m'[p].branch[i] == b[i];
      SplitKid(m, root, m', p, k, x, xr, x', r, i);
    }
    forall i: nat | i < |m'[r].branch|
      ensures var y := m'[r].branch[i];
              y in m' && y != r && m'[y].depth + 1 == m[p].depth && m'[y].parent == r && m'[y].k == i
    {
      assert m'[r].branch[i] == b[MIN + 1 + i];
      SplitKid(m, root, m', p, k, x, xr, x', r, MIN + 1 + i);
    }
  }

  lemma ParentInMemory<T>(m: Memory<T>, root: Id, hole: Id)
    requires Linked(m, root, hole)
    ensures forall z | z in m && z != root && z != hole :: m[z].parent in m
  {
    forall z | z in m && z != root && z != hole
      ensures m[z].parent in m
    {
      assert Attached(m, z);
    }
  }

  /** After a split the new node waits to be hung into the parent. */
  lemma SplitLinked<T>(m: Memory<T>, root: Id, m': Memory<T>, p: Id, k: nat, x: T, xr: Id, x': T, r: Id)
    requires Ready(m, root, p, k, xr) && Split(m, m', p, k, x, xr, x', r)
    ensures Linked(m', root, r)
  {
    hide Split, Ready, Same, Linked, RowItems, RowBranches, Leads, Wired;
    ReadyFacts(m, root, p, k, xr);
    SplitFacts(m, root, m', p, k, x, xr, x', r);
    SplitWired(m, root, m', p, k, x, xr, x', r);
    LinkedFacts(m, root, xr);
    ParentInMemory(m, root, xr);
    RootFacts(m, root, xr, p);
    RowKids(m, root, p, k, xr);
    SameDepths(m, m', p);
    var b := RowBranches(m[p], xr, k);
    forall z | z in m && z != xr && z != root && m[z].parent !in {p, r}
      ensures Kept(m, m', r, z)
    {
      assert z !in b;
    }
    forall z | z in m' && z != root && z != r && (z == xr || m[z].parent in {p, r})
      ensures Rehung(m', {p, r}, z)
    {
      RowHas(m, root, p, k, xr, z);
      var i: nat :| i < |b| && b[i] == z;
      SplitKid(m, root, m', p, k, x, xr, x', r, i);
      if i <= MIN {
        assert m'[p].branch[i] == z;
      } else {
        assert m'[r].branch[i - MIN - 1] == z;
      }
    }
    Relinked(m, root, xr, m', r, {p, r});
  }

  /** The two halves with the median between them hold what the node would have held. */
  lemma SplitHere<T>(m: Memory<T>, root: Id, m': Memory<T>, p: Id, k: nat, x: T, xr: Id, x': T, r: Id)
    requires Ready(m, root, p, k, xr) && Split(m, m', p, k, x, xr, x', r)
    ensures p in m' && r in m'
    ensures Items(m', map[], p, m[p].depth) + [x'] + Items(m', map[], r, m[p].depth) == Pending(m, p, k, x, xr)
  {
    hide *;
    ReadyFacts(m, root, p, k, xr);
    SplitFacts(m, root, m', p, k, x, xr, x', r);
    PendingIs(m, p, k, x, xr);
    var d, b := m[p].depth, RowBranches(m[p], xr, k);
    NodeItems(m', map[], p, d);
    NodeItems(m', map[], r, d);
    if d > 0 {
      forall i: nat | i < |b|
        ensures b[i] in m && m[b[i]].depth == d - 1
      {
        RowKid(m, root, p, k, xr, i);
      }
      LinkedFacts(m, root, xr);
      RowBelow(m, m', d - 1, b, RowItems(m[p], x, k));
      WovenSplit(m', m'[p].branch, m'[p].item, x', m'[r].branch, m'[r].item, d - 1);
    }
  }

  lemma WovenSplit<T>(m: Memory<T>, b: seq<Id>, it: seq<T>, x: T, b': seq<Id>, it': seq<T>, e: nat)
    requires |b| == |it| + 1
    ensures Woven(m, map[], b + b', it + [x] + it', e) ==
            Woven(m, map[], b, it, e) + [x] + Woven(m, map[], b', it', e)
  {
    hide Items, Woven;
    var n := |it|;
    var o: Given<T> := map[];
    assert b + b' == b[..n] + ([b[n]] + b') && it + [x] + it' == it + ([x] + it');
    WovenJoin(m, o, b[..n], it, [b[n]] + b', [x] + it', e);
    WovenFirst(m, o, b[n], b', x, it', e);
    assert b == b[..n] + [b[n]] && it == it + [];
    WovenJoin(m, o, b[..n], it, [b[n]], [], e);
    WovenLast(m, o, b[n], e);
    Nest4(Woven(m, o, b[..n], it, e), Items(m, o, b[n], e), [x], Woven(m, o, b', it', e));
  }

  lemma Nest4<T>(a: seq<T>, b: seq<T>, c: seq<T>, d: seq<T>)
    ensures a + (b + c + d) == (a + b) + c + d
  {
  }

  lemma SiblingSame<T>(m: Memory<T>, root: Id, hole: Id, m': Memory<T>, p: Id, y: Id)
    requires Linked(m, root, hole) && p in m && y in m && y != p && m[y].depth == m[p].depth
    requires forall z | z in m && z != p :: Same(m, m', z)
    ensures SameItems(m, map[], m', map[], y, m[y].depth)
  {
    hide Items, Woven, Same;
    var bad := set z | z in m && (m[z].depth > m[p].depth || z == p);
    forall z | z in m && z !in bad
      ensures Alike(m, map[], m', map[], bad, z)
    {
      assert Leads(m, z);
    }
    Agree(m, map[], m', map[], bad, {}, y, m[y].depth);
  }

  /** The split node's parent is ready to take the median and the new node. */
  lemma SplitUp<T>(m: Memory<T>, root: Id, m': Memory<T>, p: Id, k: nat, x: T, xr: Id, x': T, r: Id)
    requires Ready(m, root, p, k, xr) && Split(m, m', p, k, x, xr, x', r) && p != root
    ensures var q, kq := m[p].parent, m[p].k;
            && Ready(m', root, q, kq, r)
            && Items(m', map[q := Pending(m', q, kq, x', r)], root, m[root].depth) ==
               Items(m, map[p := Pending(m, p, k, x, xr)], root, m[root].depth)
  {
    hide *;
    ReadyFacts(m, root, p, k, xr);
    var q, kq, d := m[p].parent, m[p].k, m[p].depth;
    SplitFacts(m, root, m', p, k, x, xr, x', r);
    SplitLinked(m, root, m', p, k, x, xr, x', r);
    ParentFacts(m, root, xr, p);
    SameNode(m, m', q);
    ReadyAbove(m', root, q, kq, r);
    var v, w := Pending(m, p, k, x, xr), Pending(m', q, kq, x', r);
    ParentHolds(m, root, xr, p, v);
    PendingParts(m', q, kq, x', r);
    MidIs(m', q, kq);
    SplitHere(m, root, m', p, k, x, xr, x', r);
    LinkedFacts(m', root, r);
    SiblingRow(m, root, xr, m', p);
    GivenItems(m', map[q := w], q, d + 1);
    UpAlike(m, root, xr, m', p, v, w);
  }

  lemma SameNode<T>(m: Memory<T>, m': Memory<T>, y: Id)
    requires Same(m, m', y)
    ensures y in m && y in m' && m'[y].item == m[y].item && m'[y].branch == m[y].branch && m'[y].depth == m[y].depth
  {
  }

  lemma ReadyAbove<T>(m: Memory<T>, root: Id, q: Id, k: nat, r: Id)
    requires Linked(m, root, r) && q in m && q != r && k <= |m[q].item| && m[q].depth > 0 && r in m
    requires m[r].depth + 1 == m[q].depth
    ensures Ready(m, root, q, k, r)
  {
  }

  /** What the parent of p holds around p does not depend on p. */
  lemma SiblingRow<T>(m: Memory<T>, root: Id, hole: Id, m': Memory<T>, p: Id)
    requires Linked(m, root, hole) && p in m && p != root && p != hole
    requires forall z | z in m && z != p :: Same(m, m', z)
    requires m[p].parent in m' && Leads(m', m[p].parent)
    ensures var q, kq := m[p].parent, m[p].k;
            && q in m && q in m' && Leads(m, q) && Leads(m', q) && kq <= |m[q].item| && kq <= |m'[q].item|
            && Inner(m, q, kq) == Inner(m', q, kq) && Outer(m, q, kq) == Outer(m', q, kq)
  {
    ParentFacts(m, root, hole, p);
    var q, kq, d := m[p].parent, m[p].k, m[p].depth;
    assert Same(m, m', q);
    hide Items, Woven, After, Same;
    var b, it := m[q].branch, m[q].item;
    forall i | 0 <= i < |b| && i != kq
      ensures SameItems(m, map[], m', map[], b[i], d)
    {
      BranchFacts(m, root, hole, q, i);
      SiblingSame(m, root, hole, m', p, b[i]);
    }
    RowAlike(m, map[], m', map[], b, it, kq, d);
  }

  lemma UpAlike<T>(m: Memory<T>, root: Id, hole: Id, m': Memory<T>, p: Id, v: seq<T>, w: seq<T>)
    requires Linked(m, root, hole) && p in m && p != root && p != hole
    requires forall z | z in m && z != p :: Same(m, m', z)
    requires m[p].parent in m && w == Items(m, map[p := v], m[p].parent, m[p].depth + 1)
    ensures Items(m', map[m[p].parent := w], root, m[root].depth) == Items(m, map[p := v], root, m[root].depth)
  {
    ParentFacts(m, root, hole, p);
    var q := m[p].parent;
    var o, o' := map[p := v], map[q := w];
    hide Items, Woven, Same;
    forall y | y in m && y !in {p} && y !in {q}
      ensures Alike(m, o, m', o', {p}, y)
    {
      assert Leads(m, y);
      OnlyParent(m, root, hole, p, y);
    }
    GivenItems(m', o', q, m[q].depth);
    Agree(m, o, m', o', {p}, {q}, root, m[root].depth);
  }

  // ---------- A new root ----------

  /** Memory m' is m with a new root above the old one and its other half r. */
  ghost predicate Grown<T>(m: Memory<T>, root: Id, m': Memory<T>, newRoot: Id, x: T, r: Id) {
    && root in m && r in m && root != r && newRoot !in m && newRoot != NULL
    && m' == m[newRoot := Node(NULL, 0, m[root].depth + 1, [x], [root, r])]
              [root := m[root].(parent := newRoot, k := 0)][r := m[r].(parent := newRoot, k := 1)]
  }

  lemma GrownFacts<T>(m: Memory<T>, root: Id, m': Memory<T>, newRoot: Id, x: T, r: Id)
    requires Linked(m, root, r) && Grown(m, root, m', newRoot, x, r)
    ensures m'.Keys == m.Keys + {newRoot} && newRoot !in m && NULL !in m' && newRoot != root && newRoot != r
    ensures root != r
    ensures m'[newRoot] == Node(NULL, 0, m[root].depth + 1, [x], [root, r])
    ensures root in m && m'[root].parent == newRoot && m'[root].k == 0 && m'[root].depth == m[root].depth
    ensures r in m && m'[r].parent == newRoot && m'[r].k == 1 && m'[r].depth == m[r].depth
    ensures forall y | y in m :: Same(m, m', y) && (y != root && y != r ==> m'[y] == m[y])
  {
  }

  lemma GrownWired<T>(m: Memory<T>, root: Id, m': Memory<T>, newRoot: Id, x: T, r: Id, y: Id)
    requires Linked(m, root, r) && Grown(m, root, m', newRoot, x, r) && y in m
    ensures y in m' && Leads(m', y) && Wired(m', NULL, y)
  {
    GrownFacts(m, root, m', newRoot, x, r);
    assert Leads(m, y);
    hide Linked, Grown;
    forall i: nat | i < |m[y].branch|
      ensures var z := m[y].branch[i]; z in m && m'[z] == m[z] && z != NULL && m[z].parent == y && m[z].k == i
    {
      BranchFacts(m, root, r, y, i);
    }
  }

  lemma GrownLinked<T>(m: Memory<T>, root: Id, m': Memory<T>, newRoot: Id, x: T, r: Id)
    requires Linked(m, root, r) && Grown(m, root, m', newRoot, x, r) && m[r].depth == m[root].depth
    ensures Linked(m', newRoot, NULL)
  {
    GrownFacts(m, root, m', newRoot, x, r);
    hide Grown;
    forall y | y in m'
      ensures Leads(m', y) && Wired(m', NULL, y)
    {
      hide Linked;
      if y != newRoot {
        GrownWired(m, root, m', newRoot, x, r, y);
      }
    }
    forall y | y in m' && y != newRoot
      ensures Attached(m', y) && m'[y].depth < m'[newRoot].depth
    {
      if y != root && y != r {
        assert Attached(m, y) && Same(m, m', m[y].parent);
      }
    }
  }

  lemma GrownItems<T>(m: Memory<T>, root: Id, m': Memory<T>, newRoot: Id, x: T, r: Id)
    requires Linked(m, root, r) && Grown(m, root, m', newRoot, x, r) && m[r].depth == m[root].depth
    ensures newRoot in m'
    ensures Contents(m', newRoot) == Items(m, map[], root, m[root].depth) + [x] + Items(m, map[], r, m[root].depth)
  {
    GrownFacts(m, root, m', newRoot, x, r);
    LinkedFacts(m, root, r);
    hide Items, Woven, Linked, Grown, Leads, Same;
    var d := m[root].depth;
    NodeItems(m', map[], newRoot, d + 1);
    RowBelow(m, m', d, [root, r], [x]);
    assert [root, r] == [root] + [r] && [x] == [] + [x] + [];
    WovenSplit(m, [root], [], x, [r], [], d);
    WovenLast(m, map[], root, d);
    WovenLast(m, map[], r, d);
  }
}
