/** Sharing items between two sibling nodes, and making one node of them. */
module BtreeRebalance {
  import opened BtreeMemory
  import opened BtreeInsertion
  import opened BtreeRemoval

  /** Branches k and k + 1 of inner node q. */
  ghost predicate Pair<T>(m: Memory<T>, root: Id, q: Id, k: nat) {
    Linked(m, root, NULL) && q in m && m[q].depth > 0 && k + 1 < |m[q].branch|
  }

  lemma PairFacts<T>(m: Memory<T>, root: Id, q: Id, k: nat)
    requires Pair(m, root, q, k)
    ensures Linked(m, root, NULL) && q in m && Leads(m, q) && m[q].depth > 0 && |m[q].branch| == |m[q].item| + 1
    ensures k + 1 < |m[q].branch| && q != NULL && (q != root ==> m[q].parent != q)
    ensures var l, r, d := m[q].branch[k], m[q].branch[k + 1], m[q].depth - 1;
            && l in m && r in m && l != r && l != q && r != q && l != root && r != root && l != NULL && r != NULL
            && m[l].depth == d && m[r].depth == d && m[l].parent == q && m[r].parent == q && m[l].k == k &&
               m[r].k == k + 1
            && Leads(m, l) && Leads(m, r)
            && |m[l].branch| == (if d == 0 then 0 else |m[l].item| + 1)
            && |m[r].branch| == (if d == 0 then 0 else |m[r].item| + 1)
  {
    BranchFacts(m, root, NULL, q, k);
    BranchFacts(m, root, NULL, q, k + 1);
    assert Leads(m, q) && Leads(m, m[q].branch[k]) && Leads(m, m[q].branch[k + 1]);
    if q != root {
      ParentFacts(m, root, NULL, q);
    }
  }

  /** The row of the two nodes together, with the divider between them. */
  function PairItems<T>(m: Memory<T>, q: Id, k: nat): seq<T>
    requires q in m && k + 1 < |m[q].branch| && k < |m[q].item| && m[q].branch[k] in m && m[q].branch[k + 1] in m
  {
    m[m[q].branch[k]].item + [m[q].item[k]] + m[m[q].branch[k + 1]].item
  }

  function PairBranches<T>(m: Memory<T>, q: Id, k: nat): seq<Id>
    requires q in m && k + 1 < |m[q].branch| && m[q].branch[k] in m && m[q].branch[k + 1] in m
  {
    m[m[q].branch[k]].branch + m[m[q].branch[k + 1]].branch
  }

  lemma PairKid<T>(m: Memory<T>, root: Id, q: Id, k: nat, i: nat)
    requires Pair(m, root, q, k) && m[q].branch[k] in m && m[q].branch[k + 1] in m
    requires i < |PairBranches(m, q, k)|
    ensures var l, r, y := m[q].branch[k], m[q].branch[k + 1], PairBranches(m, q, k)[i];
            && y in m && y != q && y != l && y != r && y != root && y != NULL && m[y].depth + 2 == m[q].depth
            && m[y].parent == (if i < |m[l].branch| then l else r) &&
               m[y].k == (if i < |m[l].branch| then i else i - |m[l].branch|)
  {
    PairFacts(m, root, q, k);
    hide Pair, Linked;
    var l, r := m[q].branch[k], m[q].branch[k + 1];
    if i < |m[l].branch| {
      BranchFacts(m, root, NULL, l, i);
    } else {
      BranchFacts(m, root, NULL, r, i - |m[l].branch|);
    }
  }

  lemma PairDistinct<T>(m: Memory<T>, root: Id, q: Id, k: nat)
    requires Pair(m, root, q, k) && m[q].branch[k] in m && m[q].branch[k + 1] in m
    ensures Distinct(PairBranches(m, q, k))
  {
    PairFacts(m, root, q, k);
    var b, l := PairBranches(m, q, k), m[q].branch[k];
    forall i: nat | i < |b|
      ensures b[i] in m && m[b[i]].parent == (if i < |m[l].branch| then l else m[q].branch[k + 1])
      ensures m[b[i]].k == (if i < |m[l].branch| then i else i - |m[l].branch|)
    {
      PairKid(m, root, q, k, i);
    }
  }

  /** Every node below the two is in their row. */
  lemma PairHas<T>(m: Memory<T>, root: Id, q: Id, k: nat, y: Id)
    requires Pair(m, root, q, k) && m[q].branch[k] in m && m[q].branch[k + 1] in m
    requires y in m && (m[y].parent == m[q].branch[k] || m[y].parent == m[q].branch[k + 1])
    ensures var i := if m[y].parent == m[q].branch[k] then m[y].k else m[y].k + |m[m[q].branch[k]].branch|;
            i < |PairBranches(m, q, k)| && PairBranches(m, q, k)[i] == y
  {
    PairFacts(m, root, q, k);
    RootFacts(m, root, NULL, y);
    assert Attached(m, y);
  }

  /** What q holds, as the two nodes see it. */
  lemma PairRow<T>(m: Memory<T>, root: Id, q: Id, k: nat)
    requires Pair(m, root, q, k)
    ensures Leads(m, q) && k + 1 <= |m[q].item|
    ensures var l, r, d := m[q].branch[k], m[q].branch[k + 1], m[q].depth - 1;
            Items(m, map[], q, d + 1) ==
            Inner(m, q, k) + (Items(m, map[], l, d) + [m[q].item[k]] + Items(m, map[], r, d)) + Outer(m, q, k + 1)
  {
    hide *;
    PairFacts(m, root, q, k);
    var d := m[q].depth - 1;
    NodeParts(m, q, k);
    MidIs(m, q, k);
    OuterFirst(m, q, k);
    RegroupRow(Items(m, map[], q, d + 1), Inner(m, q, k), Mid(m, q, k), [m[q].item[k]],
               Items(m, map[], m[q].branch[k + 1], d),
               Outer(m, q, k + 1), Outer(m, q, k));
  }

  lemma RegroupRow<T>(all: seq<T>, a: seq<T>, b: seq<T>, x: seq<T>, c: seq<T>, d: seq<T>, e: seq<T>)
    requires all == a + b + e && e == x + (c + d)
    ensures all == a + (b + x + c) + d
  {
  }

  /** If q holds the same, and only q, l and r have changed, the whole tree holds the same. */
  lemma PairKeepsAll<T>(m: Memory<T>, root: Id, q: Id, k: nat, m': Memory<T>)
    requires Pair(m, root, q, k)
    requires var l, r := m[q].branch[k], m[q].branch[k + 1];
             forall y | y in m && y != q && y != l && y != r :: Same(m, m', y)
    requires root in m && Items(m', map[], q, m[q].depth) == Items(m, map[], q, m[q].depth)
    ensures Items(m', map[], root, m[root].depth) == Contents(m, root)
  {
    PairFacts(m, root, q, k);
    LinkedFacts(m, root, NULL);
    var l, r := m[q].branch[k], m[q].branch[k + 1];
    hide Items, Woven, Pair, Same, Leads, Linked;
    forall y | y in m && y !in {l, r} && y !in {q}
      ensures Alike(m, map[], m', map[], {l, r}, y)
    {
      OnlyParent(m, root, NULL, l, y);
      OnlyParent(m, root, NULL, r, y);
    }
    Agree(m, map[], m', map[], {l, r}, {q}, root, m[root].depth);
  }

  /** Another branch of q holds the same. */
  lemma PairSibling<T>(m: Memory<T>, root: Id, q: Id, k: nat, m': Memory<T>, y: Id)
    requires Pair(m, root, q, k)
    requires var l, r := m[q].branch[k], m[q].branch[k + 1];
             forall z | z in m && z != q && z != l && z != r :: Same(m, m', z)
    requires y in m && y != m[q].branch[k] && y != m[q].branch[k + 1] && m[y].depth + 1 == m[q].depth
    ensures SameItems(m, map[], m', map[], y, m[y].depth)
  {
    PairFacts(m, root, q, k);
    LinkedFacts(m, root, NULL);
    var l, r := m[q].branch[k], m[q].branch[k + 1];
    var bad := set z | z in m && (m[z].depth >= m[q].depth || z == l || z == r);
    hide Items, Woven, Pair, Same, Linked;
    forall z | z in m && z !in bad
      ensures Alike(m, map[], m', map[], bad, z)
    {
      assert Leads(m, z);
    }
    Agree(m, map[], m', map[], bad, {}, y, m[y].depth);
  }

  lemma PairSiblings<T>(m: Memory<T>, root: Id, q: Id, k: nat, m': Memory<T>)
    requires Pair(m, root, q, k)
    requires var l, r := m[q].branch[k], m[q].branch[k + 1];
             forall z | z in m && z != q && z != l && z != r :: Same(m, m', z)
    ensures var b, d := m[q].branch, m[q].depth - 1;
            forall i: nat | i < |b| && i != k && i != k + 1 :: SameItems(m, map[], m', map[], b[i], d)
  {
    PairFacts(m, root, q, k);
    var b, d := m[q].branch, m[q].depth - 1;
    forall i: nat | i < |b| && i != k && i != k + 1
      ensures SameItems(m, map[], m', map[], b[i], d)
    {
      BranchFacts(m, root, NULL, q, i);
      hide Linked;
      PairSibling(m, root, q, k, m', b[i]);
    }
  }

  /** The rows of q before branch k and after branch k + 1 hold the same. */
  lemma PairOutside<T>(m: Memory<T>, root: Id, q: Id, k: nat, m': Memory<T>)
    requires Pair(m, root, q, k)
    requires var l, r := m[q].branch[k], m[q].branch[k + 1];
             forall z | z in m && z != q && z != l && z != r :: Same(m, m', z)
    ensures Leads(m, q) && k + 1 <= |m[q].item|
    ensures var b, it, d := m[q].branch, m[q].item, m[q].depth - 1;
            && Woven(m', map[], b[..k], it[..k], d) == Inner(m, q, k)
            && After(m', map[], b, it, k + 1, d) == Outer(m, q, k + 1)
  {
    hide Items, Woven, Pair, Same, Linked, Leads, SameItems;
    PairFacts(m, root, q, k);
    PairSiblings(m, root, q, k, m');
    var b, it, d := m[q].branch, m[q].item, m[q].depth - 1;
    WovenAlike(m, map[], m', map[], b[..k], it[..k], d);
    if k + 1 < |it| {
      var t := b[k + 2..];
      forall i | 0 <= i < |t|
        ensures SameItems(m, map[], m', map[], t[i], d)
      {
        assert t[i] == b[k + 2 + i];
      }
      WovenAlike(m, map[], m', map[], t, it[k + 2..], d);
    }
  }

  // ---------- Moving items from one node to the other ----------

  /** The row of nodes l and r has been divided anew: l has n items, and item n is the divider. */
  ghost predicate Redivided<T>(m: Memory<T>, m': Memory<T>, q: Id, k: nat, n: nat) {
    && q in m && k + 1 < |m[q].branch| && k < |m[q].item| && m[q].branch[k] in m && m[q].branch[k + 1] in m
    && var l, r, it, b := m[q].branch[k], m[q].branch[k + 1], PairItems(m, q, k), PairBranches(m, q, k);
    && m'.Keys == m.Keys && n < |it| && (b != [] ==> n + 1 <= |b|)
    && m'[q] == m[q].(item := m[q].item[k := it[n]])
    && m'[l] == m[l].(item := it[..n], branch := if b == [] then [] else b[..n + 1])
    && m'[r] == m[r].(item := it[n + 1..], branch := if b == [] then [] else b[n + 1..])
    && (forall i | 0 <= i < |b| :: b[i] in m &&
          m'[b[i]].parent == (if i <= n then l else r) && m'[b[i]].k == (if i <= n then i else i - n - 1))
    && (forall y | y in m && y != q && y != l && y != r :: Same(m, m', y) && (y !in b ==> m'[y] == m[y]))
  }

  lemma RedividedFacts<T>(m: Memory<T>, root: Id, m': Memory<T>, q: Id, k: nat, n: nat)
    requires Pair(m, root, q, k) && Redivided(m, m', q, k, n)
    ensures k < |m[q].item| && m'.Keys == m.Keys
    ensures var l, r, d, it := m[q].branch[k], m[q].branch[k + 1], m[q].depth - 1, m'[q].item[k];
            && l in m && r in m
            && m'[q].item == m[q].item[k := it] && m'[q].branch == m[q].branch
            && m'[q].depth == m[q].depth && m'[q].parent == m[q].parent && m'[q].k == m[q].k
            && m'[l].depth == d && m'[r].depth == d && m'[l].parent == q && m'[r].parent == q && m'[l].k == k &&
               m'[r].k == k + 1
            && PairItems(m, q, k) == m'[l].item + [it] + m'[r].item && |m'[l].item| == n
            && PairBranches(m, q, k) == m'[l].branch + m'[r].branch
            && |m'[l].branch| == (if d == 0 then 0 else |m'[l].item| + 1)
            && |m'[r].branch| == (if d == 0 then 0 else |m'[r].item| + 1)
            && forall y | y in m && y != q && y != l && y != r ::
                 Same(m, m', y) && (y !in PairBranches(m, q, k) ==> m'[y] == m[y])
  {
    hide Pair, Linked, Leads, PairItems, PairBranches, Same;
    PairFacts(m, root, q, k);
    PairSizes(m, q, k);
    RowCut(PairItems(m, q, k), PairBranches(m, q, k), n);
  }

  lemma PairSizes<T>(m: Memory<T>, q: Id, k: nat)
    requires q in m && k + 1 < |m[q].branch| && k < |m[q].item| && m[q].branch[k] in m && m[q].branch[k + 1] in m
    ensures |PairItems(m, q, k)| == |m[m[q].branch[k]].item| + 1 + |m[m[q].branch[k + 1]].item|
    ensures |PairBranches(m, q, k)| == |m[m[q].branch[k]].branch| + |m[m[q].branch[k + 1]].branch|
  {
  }

  lemma RowCut<T>(it: seq<T>, b: seq<Id>, n: nat)
    requires n < |it| && (b != [] ==> n + 1 <= |b|)
    ensures it == it[..n] + [it[n]] + it[n + 1..]
    ensures b != [] ==> b == b[..n + 1] + b[n + 1..]
  {
  }

  lemma RedividedKid<T>(m: Memory<T>, root: Id, m': Memory<T>, q: Id, k: nat, n: nat, i: nat)
    requires Pair(m, root, q, k) && Redivided(m, m', q, k, n) && i < |PairBranches(m, q, k)|
    ensures var l, r, y := m[q].branch[k], m[q].branch[k + 1], PairBranches(m, q, k)[i];
            && y in m' && y != NULL && m'[y].depth + 2 == m[q].depth
            && m'[y].parent == (if i <= n then l else r) && m'[y].k == (if i <= n then i else i - n - 1)
  {
    PairKid(m, root, q, k, i);
    hide Pair, Linked, Leads, PairItems, PairBranches;
  }

  lemma RedividedWired<T>(m: Memory<T>, root: Id, m': Memory<T>, q: Id, k: nat, n: nat)
    requires Pair(m, root, q, k) && Redivided(m, m', q, k, n)
    ensures var l, r := m[q].branch[k], m[q].branch[k + 1];
            && l in m' && r in m' && Leads(m', l) && Wired(m', NULL, l) && Leads(m', r) && Wired(m', NULL, r)
  {
    hide Pair, Linked, PairItems, PairBranches, Redivided, Same;
    PairFacts(m, root, q, k);
    RedividedFacts(m, root, m', q, k, n);
    var l, r, b := m[q].branch[k], m[q].branch[k + 1], PairBranches(m, q, k);
    forall i: nat | i < |m'[l].branch|
      ensures var y := m'[l].branch[i];
              y in m' && y != NULL && m'[y].depth + 1 == m'[l].depth && m'[y].parent == l && m'[y].k == i
    {
      assert m'[l].branch[i] == b[i];
      RedividedKid(m, root, m', q, k, n, i);
    }
    forall i: nat | i < |m'[r].branch|
      ensures var y := m'[r].branch[i];
              y in m' && y != NULL && m'[y].depth + 1 == m'[r].depth && m'[y].parent == r && m'[y].k == i
    {
      assert m'[r].branch[i] == b[n + 1 + i];
      RedividedKid(m, root, m', q, k, n, n + 1 + i);
    }
  }

  lemma RedividedAbove<T>(m: Memory<T>, root: Id, m': Memory<T>, q: Id, k: nat, n: nat)
    requires Pair(m, root, q, k) && Redivided(m, m', q, k, n)
    ensures q in m' && Leads(m', q) && Wired(m', NULL, q)
  {
    PairFacts(m, root, q, k);
    RedividedFacts(m, root, m', q, k, n);
    hide Pair, Linked, PairItems, Redivided, Leads;
    var l, r, b := m[q].branch[k], m[q].branch[k + 1], m[q].branch;
    forall i: nat | i < |b|
      ensures b[i] in m' && b[i] != NULL && m'[b[i]].depth + 1 == m[q].depth && m'[b[i]].parent == q && m'[b[i]].k == i
    {
      BranchFacts(m, root, NULL, q, i);
      if b[i] != l && b[i] != r {
        NotBelow(m, root, q, k, b[i]);
      }
    }
    hide PairBranches, Same;
    LeadsAgain(m', q);
  }

  lemma LeadsAgain<T>(m: Memory<T>, q: Id)
    requires q in m && |m[q].branch| == (if m[q].depth == 0 then 0 else |m[q].item| + 1)
    requires forall i: nat | i < |m[q].branch| :: m[q].branch[i] in m && m[m[q].branch[i]].depth + 1 == m[q].depth
    ensures Leads(m, q)
  {
  }

  /** A node whose parent is neither of the two is not in their row. */
  lemma NotBelow<T>(m: Memory<T>, root: Id, q: Id, k: nat, y: Id)
    requires Pair(m, root, q, k) && m[q].branch[k] in m && m[q].branch[k + 1] in m && y in m
    requires m[y].parent != m[q].branch[k] && m[y].parent != m[q].branch[k + 1]
    ensures y !in PairBranches(m, q, k)
  {
    PairFacts(m, root, q, k);
    hide Pair, Linked, PairBranches;
    forall i: nat | i < |PairBranches(m, q, k)|
      ensures PairBranches(m, q, k)[i] != y
    {
      PairKid(m, root, q, k, i);
    }
  }

  lemma RedividedLinked<T>(m: Memory<T>, root: Id, m': Memory<T>, q: Id, k: nat, n: nat)
    requires Pair(m, root, q, k) && Redivided(m, m', q, k, n)
    ensures Linked(m', root, NULL)
  {
    hide Pair, Linked, PairItems, PairBranches, Redivided, Leads, Wired, Same;
    PairFacts(m, root, q, k);
    RedividedFacts(m, root, m', q, k, n);
    RedividedWired(m, root, m', q, k, n);
    RedividedAbove(m, root, m', q, k, n);
    LinkedFacts(m, root, NULL);
    var l, r, b := m[q].branch[k], m[q].branch[k + 1], PairBranches(m, q, k);
    AllDepths(m, m', {q, l, r});
    forall z | z in m && z != NULL && z != root && m[z].parent !in {q, l, r}
      ensures Kept(m, m', NULL, z)
    {
      NotBelow(m, root, q, k, z);
    }
    forall z | z in m' && z != root && m[z].parent in {q, l, r}
      ensures Rehung(m', {q, l, r}, z)
    {
      RehungPair(m, root, m', q, k, n, z);
    }
    assert m'[root].parent == NULL by {
      NotBelowRoot(m, root, q, k);
    }
    Relinked(m, root, NULL, m', NULL, {q, l, r});
  }

  lemma NotBelowRoot<T>(m: Memory<T>, root: Id, q: Id, k: nat)
    requires Pair(m, root, q, k) && m[q].branch[k] in m && m[q].branch[k + 1] in m
    ensures root !in PairBranches(m, q, k)
  {
    PairFacts(m, root, q, k);
    hide Pair, Linked, PairBranches;
    forall i: nat | i < |PairBranches(m, q, k)|
      ensures PairBranches(m, q, k)[i] != root
    {
      PairKid(m, root, q, k, i);
    }
  }

  lemma AllDepths<T>(m: Memory<T>, m': Memory<T>, changed: set<Id>)
    requires forall y | y in m && y !in changed :: Same(m, m', y)
    requires forall y | y in changed && y in m :: y in m' && m'[y].depth == m[y].depth
    ensures forall y | y in m :: y in m' && m'[y].depth == m[y].depth
  {
  }

  lemma RehungPair<T>(m: Memory<T>, root: Id, m': Memory<T>, q: Id, k: nat, n: nat, z: Id)
    requires Pair(m, root, q, k) && Redivided(m, m', q, k, n) && z in m && z != root
    requires m[q].branch[k] in m && m[q].branch[k + 1] in m
    requires m[z].parent in {q, m[q].branch[k], m[q].branch[k + 1]}
    ensures z in m' && Rehung(m', {q, m[q].branch[k], m[q].branch[k + 1]}, z)
  {
    hide Pair, Linked, PairItems, PairBranches, Redivided, Leads, Same;
    PairFacts(m, root, q, k);
    RedividedFacts(m, root, m', q, k, n);
    var l, r, b := m[q].branch[k], m[q].branch[k + 1], PairBranches(m, q, k);
    if m[z].parent == q {
      AttachedFacts(m, root, z);
      if z != l && z != r {
        NotBelow(m, root, q, k, z);
      }
      assert m[q].branch[m[z].k] == z;
    } else {
      PairHas(m, root, q, k, z);
      var i: nat := if m[z].parent == l then m[z].k else m[z].k + |m[l].branch|;
      RedividedKid(m, root, m', q, k, n, i);
      assert z == if i <= n then m'[l].branch[i] else m'[r].branch[i - n - 1];
    }
  }

  lemma AttachedFacts<T>(m: Memory<T>, root: Id, z: Id)
    requires Linked(m, root, NULL) && z in m && z != root
    ensures var q := m[z].parent; q in m && m[z].k < |m[q].branch| && m[q].branch[m[z].k] == z
  {
    ParentFacts(m, root, NULL, z);
    assert Attached(m, z);
  }

  /** The row of the two nodes holds the same, however it is divided. */
  lemma RowHolds<T>(m: Memory<T>, m': Memory<T>, x: Id, y: Id, d: nat, divider: T, it: seq<T>, b: seq<Id>)
    requires x in m && y in m && it == m[x].item + [divider] + m[y].item && b == m[x].branch + m[y].branch
    requires |m[x].branch| == if d == 0 then 0 else |m[x].item| + 1
    ensures Items(m, map[], x, d) + [divider] + Items(m, map[], y, d) ==
            if d == 0 then it else Woven(m, map[], b, it, d - 1)
  {
    hide Items, Woven;
    NodeItems(m, map[], x, d);
    NodeItems(m, map[], y, d);
    if d > 0 {
      WovenSplit(m, m[x].branch, m[x].item, divider, m[y].branch, m[y].item, d - 1);
    }
  }

  lemma RowBelowPair<T>(m: Memory<T>, root: Id, q: Id, k: nat, m': Memory<T>)
    requires Pair(m, root, q, k) && m[q].branch[k] in m && m[q].branch[k + 1] in m && k < |m[q].item| && m[q].depth > 1
    requires var l, r := m[q].branch[k], m[q].branch[k + 1];
             forall z | z in m && z != q && z != l && z != r :: Same(m, m', z)
    ensures var it, b, d := PairItems(m, q, k), PairBranches(m, q, k), m[q].depth - 2;
            Woven(m, map[], b, it, d) == Woven(m', map[], b, it, d)
  {
    PairFacts(m, root, q, k);
    LinkedFacts(m, root, NULL);
    var b, d := PairBranches(m, q, k), m[q].depth - 2;
    hide Items, Woven, Pair, Same, Linked, Leads, PairItems, PairBranches;
    forall i: nat | i < |b|
      ensures b[i] in m && m[b[i]].depth == d
    {
      PairKid(m, root, q, k, i);
    }
    RowBelow(m, m', d, b, PairItems(m, q, k));
  }

  lemma PairHolds<T>(m: Memory<T>, root: Id, q: Id, k: nat)
    requires Pair(m, root, q, k)
    ensures var l, r, d := m[q].branch[k], m[q].branch[k + 1], m[q].depth - 1;
            && k < |m[q].item| && l in m && r in m
            && Items(m, map[], l, d) + [m[q].item[k]] + Items(m, map[], r, d) ==
               if d == 0 then PairItems(m, q, k) else Woven(m, map[], PairBranches(m, q, k), PairItems(m, q, k), d - 1)
  {
    hide *;
    PairFacts(m, root, q, k);
    PairIs(m, q, k);
    RowHolds(m, m, m[q].branch[k], m[q].branch[k + 1], m[q].depth - 1, m[q].item[k], PairItems(m, q, k),
             PairBranches(m, q, k));
  }

  /** The pair holds the same before and after. */
  lemma RedividedPair<T>(m: Memory<T>, root: Id, m': Memory<T>, q: Id, k: nat, n: nat)
    requires Pair(m, root, q, k) && Redivided(m, m', q, k, n)
    ensures var l, r, d := m[q].branch[k], m[q].branch[k + 1], m[q].depth - 1;
            && k < |m[q].item| && q in m' && k < |m'[q].item|
            && Items(m', map[], l, d) + [m'[q].item[k]] + Items(m', map[], r, d) ==
               Items(m, map[], l, d) + [m[q].item[k]] + Items(m, map[], r, d)
  {
    hide *;
    PairHolds(m, root, q, k);
    PairFacts(m, root, q, k);
    RedividedFacts(m, root, m', q, k, n);
    RowHolds(m', m', m[q].branch[k], m[q].branch[k + 1], m[q].depth - 1, m'[q].item[k], PairItems(m, q, k),
             PairBranches(m, q, k));
    if m[q].depth > 1 {
      RowBelowPair(m, root, q, k, m');
    }
  }

  lemma PairIs<T>(m: Memory<T>, q: Id, k: nat)
    requires q in m && k + 1 < |m[q].branch| && k < |m[q].item| && m[q].branch[k] in m && m[q].branch[k + 1] in m
    ensures PairItems(m, q, k) == m[m[q].branch[k]].item + [m[q].item[k]] + m[m[q].branch[k + 1]].item
    ensures PairBranches(m, q, k) == m[m[q].branch[k]].branch + m[m[q].branch[k + 1]].branch
  {
  }

  /** Dividing the row of two nodes anew changes nothing that the tree holds. */
  lemma RedividedItems<T>(m: Memory<T>, root: Id, m': Memory<T>, q: Id, k: nat, n: nat)
    requires Pair(m, root, q, k) && Redivided(m, m', q, k, n)
    ensures Items(m', map[], root, m[root].depth) == Contents(m, root)
  {
    hide *;
    PairFacts(m, root, q, k);
    RedividedFacts(m, root, m', q, k, n);
    LinkedFacts(m, root, NULL);
    RedividedLinked(m, root, m', q, k, n);
    IsPair(m', root, q, k);
    PairRow(m, root, q, k);
    PairRow(m', root, q, k);
    RedividedPair(m, root, m', q, k, n);
    PairOutside(m, root, q, k, m');
    RowsOutside(m, m', q, k);
    PairKeepsAll(m, root, q, k, m');
  }

  lemma IsPair<T>(m: Memory<T>, root: Id, q: Id, k: nat)
    requires Linked(m, root, NULL) && q in m && m[q].depth > 0 && k + 1 < |m[q].branch|
    ensures Pair(m, root, q, k)
  {
  }

  lemma RowsOutside<T>(m: Memory<T>, m': Memory<T>, q: Id, k: nat)
    requires q in m && q in m' && Leads(m', q) && m'[q].depth == m[q].depth > 0
    requires k + 1 < |m[q].branch| == |m[q].item| + 1
    requires m'[q].branch == m[q].branch && k < |m'[q].item| && m'[q].item == m[q].item[k := m'[q].item[k]]
    ensures Inner(m', q, k) == Woven(m', map[], m[q].branch[..k], m[q].item[..k], m[q].depth - 1)
    ensures Outer(m', q, k + 1) == After(m', map[], m[q].branch, m[q].item, k + 1, m[q].depth - 1)
  {
    hide Items, Woven;
    assert m'[q].item[..k] == m[q].item[..k];
    if k + 1 < |m[q].item| {
      assert m'[q].item[k + 2..] == m[q].item[k + 2..] && m'[q].item[k + 1] == m[q].item[k + 1];
    }
  }

  // ---------- Making one node of two ----------

  /** Node l has taken over the divider and all of r, which is gone. */
  ghost predicate Combined<T>(m: Memory<T>, m': Memory<T>, q: Id, k: nat) {
    && q in m && k + 1 < |m[q].branch| && k < |m[q].item| && m[q].branch[k] in m && m[q].branch[k + 1] in m
    && var l, r, it, b := m[q].branch[k], m[q].branch[k + 1], PairItems(m, q, k), PairBranches(m, q, k);
    && m'.Keys == m.Keys - {r} && q != r && l != r
    && m'[q] == m[q].(item := Without(m[q].item, k), branch := Without(m[q].branch, k + 1))
    && m'[l] == m[l].(item := it, branch := b)
    && (forall i | 0 <= i < |b| :: b[i] in m' && m'[b[i]].parent == l && m'[b[i]].k == i)
    && (forall i | 0 <= i < |m'[q].branch| :: var y := m'[q].branch[i]; y in m' && m'[y].parent == q && m'[y].k == i)
    && (forall y | y in m && y != q && y != l && y != r ::
          Same(m, m', y) && (y !in b && y !in m[q].branch ==> m'[y] == m[y]))
  }

  lemma CombinedFacts<T>(m: Memory<T>, root: Id, m': Memory<T>, q: Id, k: nat)
    requires Pair(m, root, q, k) && Combined(m, m', q, k)
    ensures k < |m[q].item| && m'.Keys == m.Keys - {m[q].branch[k + 1]}
    ensures var l, r, d := m[q].branch[k], m[q].branch[k + 1], m[q].depth - 1;
            && l in m && r in m && l in m' && q in m'
            && m'[q].item == Without(m[q].item, k) && m'[q].branch == Without(m[q].branch, k + 1)
            && m'[q].depth == m[q].depth && m'[q].parent == m[q].parent && m'[q].k == m[q].k
            && m'[l].depth == d && m'[l].parent == q && m'[l].k == k
            && PairItems(m, q, k) == m'[l].item && PairBranches(m, q, k) == m'[l].branch
            && |m'[l].item| == |m[l].item| + 1 + |m[r].item|
            && |m'[l].branch| == (if d == 0 then 0 else |m'[l].item| + 1)
            && |m'[q].branch| == |m'[q].item| + 1 && k < |m'[q].branch| && m'[q].branch[k] == l
            && forall y | y in m && y != q && y != l && y != r ::
                 Same(m, m', y) && (y !in PairBranches(m, q, k) && y !in m[q].branch ==> m'[y] == m[y])
  {
    PairFacts(m, root, q, k);
    PairIs(m, q, k);
    hide Pair, Linked, Leads, PairItems, PairBranches, Same;
  }

  lemma CombinedKid<T>(m: Memory<T>, root: Id, m': Memory<T>, q: Id, k: nat, i: nat)
    requires Pair(m, root, q, k) && Combined(m, m', q, k) && i < |PairBranches(m, q, k)|
    ensures var l, y := m[q].branch[k], PairBranches(m, q, k)[i];
            y in m' && y != NULL && m'[y].parent == l && m'[y].k == i && m'[y].depth + 2 == m[q].depth
  {
    PairKid(m, root, q, k, i);
    hide Pair, Linked, PairItems, PairBranches, Leads;
    assert Same(m, m', PairBranches(m, q, k)[i]);
  }

  lemma CombinedBranch<T>(m: Memory<T>, root: Id, m': Memory<T>, q: Id, k: nat, i: nat)
    requires Pair(m, root, q, k) && Combined(m, m', q, k) && q in m' && i < |m'[q].branch|
    ensures var y := m'[q].branch[i];
            y in m' && y != NULL && m'[y].parent == q && m'[y].k == i && m'[y].depth + 1 == m[q].depth
  {
    CombinedTold(m, m', q, k, i);
    hide Pair, Linked, PairItems, PairBranches, Leads, Combined, Same;
    PairFacts(m, root, q, k);
    CombinedFacts(m, root, m', q, k);
    var j := if i <= k then i else i + 1;
    assert m'[q].branch[i] == m[q].branch[j];
    BranchFacts(m, root, NULL, q, j);
    DepthsLeft(m, m', q, m[q].branch[k], m[q].branch[k + 1]);
  }

  lemma CombinedTold<T>(m: Memory<T>, m': Memory<T>, q: Id, k: nat, i: nat)
    requires Combined(m, m', q, k) && q in m' && i < |m'[q].branch|
    ensures var y := m'[q].branch[i]; y in m' && m'[y].parent == q && m'[y].k == i
  {
    hide PairItems, PairBranches, Same, Without;
  }

  lemma CombinedWired<T>(m: Memory<T>, root: Id, m': Memory<T>, q: Id, k: nat)
    requires Pair(m, root, q, k) && Combined(m, m', q, k)
    ensures var l := m[q].branch[k];
            l in m' && q in m' && Leads(m', l) && Wired(m', NULL, l) && Leads(m', q) && Wired(m', NULL, q)
  {
    hide Pair, Linked, PairItems, PairBranches, Same, Combined;
    PairFacts(m, root, q, k);
    CombinedFacts(m, root, m', q, k);
    var l := m[q].branch[k];
    forall i: nat | i < |m'[l].branch|
      ensures var y := m'[l].branch[i];
              y in m' && y != NULL && m'[y].parent == l && m'[y].k == i && m'[y].depth + 1 == m'[l].depth
    {
      CombinedKid(m, root, m', q, k, i);
    }
    forall i: nat | i < |m'[q].branch|
      ensures var y := m'[q].branch[i];
              y in m' && y != NULL && m'[y].parent == q && m'[y].k == i && m'[y].depth + 1 == m'[q].depth
    {
      CombinedBranch(m, root, m', q, k, i);
    }
  }

  lemma RehungCombined<T>(m: Memory<T>, root: Id, m': Memory<T>, q: Id, k: nat, z: Id)
    requires Pair(m, root, q, k) && Combined(m, m', q, k) && z in m' && z in m && z != root
    requires m[q].branch[k] in m && m[q].branch[k + 1] in m
    requires m[z].parent in {q, m[q].branch[k], m[q].branch[k + 1]}
    ensures Rehung(m', {q, m[q].branch[k], m[q].branch[k + 1]}, z)
  {
    hide Pair, Linked, PairItems, PairBranches, Leads, Same, Combined;
    PairFacts(m, root, q, k);
    CombinedFacts(m, root, m', q, k);
    if m[z].parent == q {
      AttachedFacts(m, root, z);
      var i: nat := if m[z].k <= k then m[z].k else m[z].k - 1;
      assert m'[q].branch[i] == z;
      CombinedBranch(m, root, m', q, k, i);
    } else {
      PairHas(m, root, q, k, z);
      var i: nat := if m[z].parent == m[q].branch[k] then m[z].k else m[z].k + |m[m[q].branch[k]].branch|;
      CombinedKid(m, root, m', q, k, i);
    }
  }

  lemma CombinedLinked<T>(m: Memory<T>, root: Id, m': Memory<T>, q: Id, k: nat)
    requires Pair(m, root, q, k) && Combined(m, m', q, k)
    ensures Linked(m', root, NULL)
  {
    hide Pair, Linked, PairItems, PairBranches, Combined, Leads, Wired, Same;
    PairFacts(m, root, q, k);
    CombinedFacts(m, root, m', q, k);
    CombinedWired(m, root, m', q, k);
    LinkedFacts(m, root, NULL);
    var l, r, b := m[q].branch[k], m[q].branch[k + 1], PairBranches(m, q, k);
    DepthsLeft(m, m', q, l, r);
    forall z | z in m && z != NULL && z != root && m[z].parent !in {q, l, r}
      ensures Kept(m, m', NULL, z)
    {
      NotBelow(m, root, q, k, z);
      OnlyParent(m, root, NULL, z, q);
    }
    forall z | z in m' && z != root && m[z].parent in {q, l, r}
      ensures Rehung(m', {q, l, r}, z)
    {
      RehungCombined(m, root, m', q, k, z);
    }
    assert root in m' && m'[root].parent == NULL by {
      NotBelowRoot(m, root, q, k);
      NoRootBranch(m, root, q);
    }
    Relinked(m, root, NULL, m', NULL, {q, l, r});
  }

  lemma NoRootBranch<T>(m: Memory<T>, root: Id, q: Id)
    requires Linked(m, root, NULL) && q in m
    ensures root !in m[q].branch
  {
    assert Wired(m, NULL, q);
  }

  lemma DepthsLeft<T>(m: Memory<T>, m': Memory<T>, q: Id, l: Id, r: Id)
    requires m'.Keys == m.Keys - {r} && q in m' && l in m' && m'[q].depth == m[q].depth && m'[l].depth == m[l].depth
    requires forall y | y in m && y != q && y != l && y != r :: Same(m, m', y)
    ensures forall y | y in m' :: y in m && m'[y].depth == m[y].depth
  {
  }

  /** Making one node of two changes nothing that the tree holds. */
  lemma CombinedItems<T>(m: Memory<T>, root: Id, m': Memory<T>, q: Id, k: nat)
    requires Pair(m, root, q, k) && Combined(m, m', q, k)
    ensures Items(m', map[], root, m[root].depth) == Contents(m, root)
  {
    hide *;
    PairFacts(m, root, q, k);
    CombinedFacts(m, root, m', q, k);
    LinkedFacts(m, root, NULL);
    CombinedLinked(m, root, m', q, k);
    LinkedFacts(m', root, NULL);
    PairRow(m, root, q, k);
    CombinedPair(m, root, m', q, k);
    PairOutside(m, root, q, k, m');
    RowWithout(m, m', q, k);
    NodeParts(m', q, k);
    PairKeepsAll(m, root, q, k, m');
  }

  lemma CombinedPair<T>(m: Memory<T>, root: Id, m': Memory<T>, q: Id, k: nat)
    requires Pair(m, root, q, k) && Combined(m, m', q, k)
    ensures var l, r, d := m[q].branch[k], m[q].branch[k + 1], m[q].depth - 1;
            k < |m[q].item| && Items(m', map[], l, d) == Items(m, map[], l, d) + [m[q].item[k]] + Items(m, map[], r, d)
  {
    hide *;
    PairFacts(m, root, q, k);
    CombinedFacts(m, root, m', q, k);
    var l, r, d := m[q].branch[k], m[q].branch[k + 1], m[q].depth - 1;
    PairIs(m, q, k);
    RowHolds(m, m', l, r, d, m[q].item[k], PairItems(m, q, k), PairBranches(m, q, k));
    NodeItems(m', map[], l, d);
    if d > 0 {
      RowBelowPair(m, root, q, k, m');
    }
  }

  lemma RowWithout<T>(m: Memory<T>, m': Memory<T>, q: Id, k: nat)
    requires q in m && q in m' && Leads(m', q) && m'[q].depth == m[q].depth > 0
    requires k + 1 < |m[q].branch| == |m[q].item| + 1
    requires m'[q].branch == Without(m[q].branch, k + 1) && m'[q].item == Without(m[q].item, k)
    ensures k <= |m'[q].item|
    ensures Inner(m', q, k) == Woven(m', map[], m[q].branch[..k], m[q].item[..k], m[q].depth - 1)
    ensures Outer(m', q, k) == After(m', map[], m[q].branch, m[q].item, k + 1, m[q].depth - 1)
    ensures Mid(m', q, k) == Items(m', map[], m[q].branch[k], m[q].depth - 1)
  {
    hide Items, Woven;
    assert m'[q].item[..k] == m[q].item[..k] && m'[q].branch[..k] == m[q].branch[..k];
    if k + 1 < |m[q].item| {
      assert m'[q].item[k + 1..] == m[q].item[k + 2..] && m'[q].item[k] == m[q].item[k + 1];
      assert m'[q].branch[k + 1..] == m[q].branch[k + 2..];
    }
  }

  // ---------- The steps by which that is done ----------

  /** The three nodes with the row divided anew, before any branch is told. */
  ghost function Divided<T>(m: Memory<T>, q: Id, k: nat, n: nat): Memory<T>
    requires q in m && k + 1 < |m[q].branch| && k < |m[q].item| && m[q].branch[k] in m && m[q].branch[k + 1] in m
    requires n < |PairItems(m, q, k)| && (PairBranches(m, q, k) != [] ==> n + 1 <= |PairBranches(m, q, k)|)
  {
    var l, r, it, b := m[q].branch[k], m[q].branch[k + 1], PairItems(m, q, k), PairBranches(m, q, k);
    m[q := m[q].(item := m[q].item[k := it[n]])]
     [l := m[l].(item := it[..n], branch := if b == [] then [] else b[..n + 1])]
     [r := m[r].(item := it[n + 1..], branch := if b == [] then [] else b[n + 1..])]
  }

  lemma DividedFacts<T>(m: Memory<T>, root: Id, q: Id, k: nat, n: nat)
    requires Pair(m, root, q, k) && m[q].branch[k] in m && m[q].branch[k + 1] in m && k < |m[q].item|
    requires n < |PairItems(m, q, k)| && (PairBranches(m, q, k) != [] ==> n + 1 <= |PairBranches(m, q, k)|)
    ensures var l, r, it, b := m[q].branch[k], m[q].branch[k + 1], PairItems(m, q, k), PairBranches(m, q, k);
            var m1 := Divided(m, q, k, n);
            && m1.Keys == m.Keys
            && m1[q] == m[q].(item := m[q].item[k := it[n]])
            && m1[l] == m[l].(item := it[..n], branch := if b == [] then [] else b[..n + 1])
            && m1[r] == m[r].(item := it[n + 1..], branch := if b == [] then [] else b[n + 1..])
            && (forall y | y in m && y != q && y != l && y != r :: m1[y] == m[y])
  {
    var l, r, it, b := m[q].branch[k], m[q].branch[k + 1], PairItems(m, q, k), PairBranches(m, q, k);
    hide Pair, Linked, PairItems, PairBranches, Leads;
    PairFacts(m, root, q, k);
    ThreeUpdates(m, q, m[q].(item := m[q].item[k := it[n]]), l,
                 m[l].(item := it[..n], branch := if b == [] then [] else b[..n + 1]),
                 r, m[r].(item := it[n + 1..], branch := if b == [] then [] else b[n + 1..]));
  }

  lemma ThreeUpdates<T>(m: Memory<T>, q: Id, nq: Node<T>, l: Id, nl: Node<T>, r: Id, nr: Node<T>)
    requires q in m && l in m && r in m && q != l && q != r && l != r
    ensures var m1 := m[q := nq][l := nl][r := nr];
            && m1.Keys == m.Keys && m1[q] == nq && m1[l] == nl && m1[r] == nr
            && forall y | y in m && y != q && y != l && y != r :: m1[y] == m[y]
  {
  }

  /** The branches are told of the new division, by a walk over all branches of r; before that l, if
      it has got one, is told of it. */
  ghost predicate Telling<T>(m: Memory<T>, root: Id, q: Id, k: nat, n: nat, m2: Memory<T>, m3: Memory<T>) {
    && Pair(m, root, q, k) && m[q].branch[k] in m && m[q].branch[k + 1] in m && k < |m[q].item|
    && n < |PairItems(m, q, k)| && (PairBranches(m, q, k) != [] ==> n + 1 <= |PairBranches(m, q, k)|)
    && var l, r, b, m1 := m[q].branch[k], m[q].branch[k + 1], PairBranches(m, q, k), Divided(m, q, k, n);
    && (n <= |m[l].item| - 1 || b == [] ==> m2 == m1)
    && (n > |m[l].item| - 1 && b != [] ==> n == |m[l].item| + 1 && n < |b| && b[n] in m1 &&
                                           m2 == m1[b[n] := m1[b[n]].(parent := l, k := n)])
    && r in m2 && Adopted(m2, m3, r, 0, |m2[r].branch|)
  }

  lemma TellingFacts<T>(m: Memory<T>, root: Id, q: Id, k: nat, n: nat, m2: Memory<T>, m3: Memory<T>)
    requires Telling(m, root, q, k, n, m2, m3)
    ensures var l, r, it, b := m[q].branch[k], m[q].branch[k + 1], PairItems(m, q, k), PairBranches(m, q, k);
            && Pair(m, root, q, k) && l in m && r in m && q in m && k < |m[q].item| && n < |it| && r in m2
            && |b| == (if b == [] then 0 else |it| + 1) && (b != [] ==> |m[l].branch| == |m[l].item| + 1)
            && m2.Keys == m.Keys && m3.Keys == m.Keys && Adopted(m2, m3, r, 0, |m2[r].branch|)
            && m2[q] == m[q].(item := m[q].item[k := it[n]])
            && m2[l] == m[l].(item := it[..n], branch := if b == [] then [] else b[..n + 1])
            && m2[r] == m[r].(item := it[n + 1..], branch := if b == [] then [] else b[n + 1..])
            && (forall y | y in m && y != q && y != l && y != r :: Same(m, m2, y) && (y !in b ==> m2[y] == m[y]))
  {
    PairFacts(m, root, q, k);
    PairIs(m, q, k);
    DividedFacts(m, root, q, k, n);
    var b := PairBranches(m, q, k);
    if b != [] && n < |b| {
      PairKid(m, root, q, k, n);
    }
    hide Pair, Linked, PairItems, PairBranches, Divided, Leads;
  }

  lemma ToldKids<T>(m: Memory<T>, root: Id, q: Id, k: nat, n: nat, m2: Memory<T>, m3: Memory<T>)
    requires Telling(m, root, q, k, n, m2, m3)
    ensures var l, r, b := m[q].branch[k], m[q].branch[k + 1], PairBranches(m, q, k);
            && Distinct(b)
            && forall i: nat | i < |b| :: b[i] in m && b[i] != q && b[i] != l && b[i] != r && b[i] in m3 &&
                 m3[b[i]].parent == (if i <= n then l else r) && m3[b[i]].k == (if i <= n then i else i - n - 1)
  {
    TellingFacts(m, root, q, k, n, m2, m3);
    PairDistinct(m, root, q, k);
    DividedFacts(m, root, q, k, n);
    var l, r, b, m1 := m[q].branch[k], m[q].branch[k + 1], PairBranches(m, q, k), Divided(m, q, k, n);
    hide Pair, Linked, PairItems, PairBranches, Divided, Leads, Same, Adopted;
    if b != [] {
      assert forall j | 0 <= j < |m2[r].branch| :: m2[r].branch[j] == b[n + 1 + j];
      forall i: nat | i < |b|
        ensures b[i] in m && b[i] != q && b[i] != l && b[i] != r && b[i] in m3 &&
                m3[b[i]].parent == (if i <= n then l else r) && m3[b[i]].k == (if i <= n then i else i - n - 1)
      {
        PairKid(m, root, q, k, i);
        ToldKid(m, m1, m2, m3, l, r, b, n, i);
      }
    }
  }

  lemma ToldOthers<T>(m: Memory<T>, root: Id, q: Id, k: nat, n: nat, m2: Memory<T>, m3: Memory<T>)
    requires Telling(m, root, q, k, n, m2, m3)
    ensures var l, r, b := m[q].branch[k], m[q].branch[k + 1], PairBranches(m, q, k);
            && m3[q] == m2[q] && m3[l] == m2[l] && m3[r] == m2[r]
            && forall y | y in m && y != q && y != l && y != r :: Same(m, m3, y) && (y !in b ==> m3[y] == m[y])
  {
    hide Pair, Linked, PairItems, PairBranches, Divided, Leads, Telling, Adopted, Distinct, Same;
    TellingFacts(m, root, q, k, n, m2, m3);
    PairFacts(m, root, q, k);
    ToldKids(m, root, q, k, n, m2, m3);
    var l, r, b := m[q].branch[k], m[q].branch[k + 1], PairBranches(m, q, k);
    AdoptedFacts(m2, m3, r, 0, |m2[r].branch|);
    TailIn(b, m2[r].branch, n, {q, l, r});
    forall y | y in m && y != q && y != l && y != r
      ensures Same(m, m3, y) && (y !in b ==> m3[y] == m[y])
    {
      SameTwice(m, m2, m3, y);
    }
  }

  lemma TailIn(b: seq<Id>, t: seq<Id>, n: nat, out: set<Id>)
    requires b == [] ==> t == []
    requires b != [] ==> n + 1 <= |b| && t == b[n + 1..]
    requires forall i: nat | i < |b| :: b[i] !in out
    ensures forall y | y in t :: y in b
    ensures forall y | y in out :: y !in t
  {
  }

  lemma SameTwice<T>(m: Memory<T>, m2: Memory<T>, m3: Memory<T>, y: Id)
    requires Same(m, m2, y) && Same(m2, m3, y)
    ensures Same(m, m3, y)
  {
  }

  lemma Told<T>(m: Memory<T>, root: Id, q: Id, k: nat, n: nat, m2: Memory<T>, m3: Memory<T>)
    requires Telling(m, root, q, k, n, m2, m3)
    ensures Redivided(m, m3, q, k, n)
  {
    hide Pair, Linked, PairItems, PairBranches, Divided, Leads, Telling, Same, Distinct, Adopted;
    TellingFacts(m, root, q, k, n, m2, m3);
    PairFacts(m, root, q, k);
    ToldKids(m, root, q, k, n, m2, m3);
    ToldOthers(m, root, q, k, n, m2, m3);
  }

  lemma ToldKid<T>(m: Memory<T>, m1: Memory<T>, m2: Memory<T>, m3: Memory<T>, l: Id, r: Id, b: seq<Id>, n: nat, i: nat)
    requires i < |b| && Distinct(b) && l in m && r in m2 && n + 1 <= |b|
    requires b[i] in m && b[i] in m1 && m1[b[i]] == m[b[i]]
    requires m[b[i]].parent == (if i < |m[l].branch| then l else r)
    requires m[b[i]].k == (if i < |m[l].branch| then i else i - |m[l].branch|)
    requires |m[l].branch| == |m[l].item| + 1
    requires n <= |m[l].item| - 1 ==> m2 == m1
    requires n > |m[l].item| - 1 ==>
               n == |m[l].item| + 1 && b[n] in m1 && m2 == m1[b[n] := m1[b[n]].(parent := l, k := n)]
    requires |m2[r].branch| == |b| - n - 1 && forall j | 0 <= j < |m2[r].branch| :: m2[r].branch[j] == b[n + 1 + j]
    requires Adopted(m2, m3, r, 0, |m2[r].branch|)
    ensures b[i] in m3
    ensures m3[b[i]].parent == (if i <= n then l else r) && m3[b[i]].k == (if i <= n then i else i - n - 1)
  {
    hide Same;
    if i <= n {
      assert !Among(m2[r].branch, 0, |m2[r].branch|, b[i]);
      assert m3[b[i]] == m2[b[i]];
    } else {
      assert m2[r].branch[i - n - 1] == b[i];
    }
  }

  /** Node l takes over the row and tells its new branches; q gives up a divider and a branch, and
      tells the branches behind. */
  ghost predicate Combining<T>(m: Memory<T>, root: Id, q: Id, k: nat, m2: Memory<T>, m4: Memory<T>) {
    && Pair(m, root, q, k) && m[q].branch[k] in m && m[q].branch[k + 1] in m && k < |m[q].item|
    && var l, it, b := m[q].branch[k], PairItems(m, q, k), PairBranches(m, q, k);
    && Adopted(m[l := m[l].(item := it, branch := b)], m2, l, |m[l].branch|, |b|)
    && q in m2 && |m[q].branch| > 0
    && var b' := Without(m[q].branch, k + 1);
    && Adopted(m2[q := m[q].(item := Without(m[q].item, k), branch := b')], m4, q, k + 1, |b'|)
  }

  lemma CombiningFacts<T>(m: Memory<T>, root: Id, q: Id, k: nat, m2: Memory<T>, m4: Memory<T>)
    requires Combining(m, root, q, k, m2, m4)
    ensures Pair(m, root, q, k) && m2.Keys == m.Keys && m4.Keys == m.Keys && k + 1 < |m[q].branch|
    ensures var l, r, b, b' := m[q].branch[k], m[q].branch[k + 1], PairBranches(m, q, k), Without(m[q].branch, k + 1);
            && l in m && r in m && q in m && k < |m[q].item|
            && (forall i: nat | |m[l].branch| <= i < |b| :: b[i] in m2 && m2[b[i]].parent == l && m2[b[i]].k == i)
            && (forall y | y in m && y !in b && y != l :: m2[y] == m[y])
            && (forall i: nat | i < |m[l].branch| :: b[i] in m && m2[b[i]] == m[b[i]])
            && (forall y | y in m && y != l :: Same(m, m2, y))
            && m2[l] == m[l].(item := PairItems(m, q, k), branch := b)
            && Distinct(b)
  {
    PairDistinct(m, root, q, k);
    PairFacts(m, root, q, k);
    PairIs(m, q, k);
    var l, it, b := m[q].branch[k], PairItems(m, q, k), PairBranches(m, q, k);
    forall i: nat | i < |b|
      ensures b[i] in m && b[i] != q && b[i] != l
    {
      PairKid(m, root, q, k, i);
    }
    hide Pair, Linked, PairItems, PairBranches, Leads;
    var m1 := m[l := m[l].(item := it, branch := b)];
    AdoptedFacts(m1, m2, l, |m[l].branch|, |b|);
    forall y | y in m && y != l
      ensures Same(m, m2, y)
    {
      assert Same(m1, m2, y);
    }
    forall i: nat | i < |m[l].branch|
      ensures b[i] in m && m2[b[i]] == m[b[i]]
    {
      assert !Among(b, |m[l].branch|, |b|, b[i]);
    }
  }

  /** Node q gets another row and tells its branches from one index on. */
  lemma RowTold<T>(m: Memory<T>, n: Node<T>, m': Memory<T>, q: Id, from: nat)
    requires q in m && Adopted(m[q := n], m', q, from, |n.branch|) && from <= |n.branch|
    requires forall i, j | 0 <= i < j < |n.branch| :: n.branch[i] != n.branch[j]
    requires forall i: nat | i < |n.branch| :: n.branch[i] in m && n.branch[i] != q
    ensures m'.Keys == m.Keys && m'[q] == n
    ensures forall i: nat | from <= i < |n.branch| :: m'[n.branch[i]].parent == q && m'[n.branch[i]].k == i
    ensures forall i: nat | i < from :: m'[n.branch[i]] == m[n.branch[i]]
    ensures forall y | y in m && y !in n.branch && y != q :: m'[y] == m[y]
    ensures forall y | y in m && y != q :: Same(m, m', y)
  {
    var m1 := m[q := n];
    AdoptedFacts(m1, m', q, from, |n.branch|);
    assert q !in n.branch by {
      assert forall i: nat | i < |n.branch| :: n.branch[i] != q;
    }
    forall y | y in m && y != q
      ensures Same(m, m', y)
    {
      assert Same(m1, m', y);
    }
    forall i: nat | i < from
      ensures m'[n.branch[i]] == m[n.branch[i]]
    {
      assert !Among(n.branch, from, |n.branch|, n.branch[i]);
    }
  }

  lemma ShortRow<T>(m: Memory<T>, root: Id, q: Id, k: nat)
    requires Pair(m, root, q, k)
    ensures k + 1 < |m[q].branch|
    ensures var b, b' := m[q].branch, Without(m[q].branch, k + 1);
            && |b'| == |b| - 1
            && (forall i: nat | i < |b'| :: b'[i] in m && b'[i] != q && b'[i] != b[k + 1] && b'[i] in b &&
                                            m[b'[i]].parent == q)
            && (forall i: nat | i <= k :: b'[i] == b[i] && m[b[i]].k == i)
            && (forall i, j | 0 <= i < j < |b'| :: b'[i] != b'[j])
  {
    PairFacts(m, root, q, k);
    var b, b' := m[q].branch, Without(m[q].branch, k + 1);
    forall i: nat | i < |b|
      ensures b[i] in m && b[i] != q && m[b[i]].k == i && m[b[i]].parent == q
    {
      BranchFacts(m, root, NULL, q, i);
    }
    hide Pair, Linked, Leads;
    assert forall i: nat | i < |b'| :: b'[i] == b[if i <= k then i else i + 1];
  }

  lemma CombiningUpper<T>(m: Memory<T>, root: Id, q: Id, k: nat, m2: Memory<T>, m4: Memory<T>)
    requires Combining(m, root, q, k, m2, m4)
    ensures Pair(m, root, q, k) && m2.Keys == m.Keys && m4.Keys == m.Keys && k + 1 < |m[q].branch| && k < |m[q].item|
    ensures var b' := Without(m[q].branch, k + 1);
            && k < |b'|
            && m4[q] == m[q].(item := Without(m[q].item, k), branch := b')
            && (forall i: nat | k < i < |b'| :: m4[b'[i]].parent == q && m4[b'[i]].k == i)
            && (forall i: nat | i <= k :: m4[b'[i]] == m2[b'[i]])
            && (forall y | y in m && y !in m[q].branch && y != q :: m4[y] == m2[y])
            && (forall y | y in m && y != q :: Same(m2, m4, y))
  {
    CombiningFacts(m, root, q, k, m2, m4);
    ShortRow(m, root, q, k);
    var n := m[q].(item := Without(m[q].item, k), branch := Without(m[q].branch, k + 1));
    assert Adopted(m2[q := n], m4, q, k + 1, |n.branch|);
    hide Combining, Pair, Linked, PairItems, PairBranches, Leads, Without, Adopted, Same;
    RowTold(m2, n, m4, q, k + 1);
    assert forall y | y in n.branch :: y in m[q].branch;
  }

  lemma CombiningKids<T>(m: Memory<T>, root: Id, q: Id, k: nat, m2: Memory<T>, m4: Memory<T>)
    requires Combining(m, root, q, k, m2, m4)
    ensures Pair(m, root, q, k) && k + 1 < |m[q].branch| && m[q].branch[k] in m && m[q].branch[k + 1] in m
    ensures var l, r, b := m[q].branch[k], m[q].branch[k + 1], PairBranches(m, q, k);
            forall i: nat | i < |b| :: b[i] in m4 && b[i] != r && m4[b[i]].parent == l && m4[b[i]].k == i
  {
    hide Combining, Pair, Linked, PairBranches, PairItems, Without, Same, Leads;
    CombiningFacts(m, root, q, k, m2, m4);
    CombiningUpper(m, root, q, k, m2, m4);
    PairFacts(m, root, q, k);
    var l, r, b := m[q].branch[k], m[q].branch[k + 1], PairBranches(m, q, k);
    forall i: nat | i < |b|
      ensures b[i] in m4 && b[i] != r && m4[b[i]].parent == l && m4[b[i]].k == i
    {
      PairKid(m, root, q, k, i);
      NotBranch(m, root, q, b[i]);
    }
  }

  lemma NotBranch<T>(m: Memory<T>, root: Id, q: Id, y: Id)
    requires Linked(m, root, NULL) && q in m && y in m && m[y].depth + 1 != m[q].depth
    ensures y !in m[q].branch
  {
    assert Leads(m, q);
  }

  lemma CombiningBranch<T>(m: Memory<T>, root: Id, q: Id, k: nat, m2: Memory<T>, m4: Memory<T>, i: nat)
    requires Combining(m, root, q, k, m2, m4) && k + 1 < |m[q].branch| && i < |Without(m[q].branch, k + 1)|
    ensures var y := Without(m[q].branch, k + 1)[i];
            y in m4 && y != m[q].branch[k + 1] && m4[y].parent == q && m4[y].k == i &&
            (i == k ==> y == m[q].branch[k] && m4[y] == m2[y])
  {
    hide Combining, Pair, Linked, PairBranches, PairItems, Without, Leads, Same;
    CombiningFacts(m, root, q, k, m2, m4);
    CombiningUpper(m, root, q, k, m2, m4);
    ShortRow(m, root, q, k);
    PairFacts(m, root, q, k);
    if i < k {
      var y := Without(m[q].branch, k + 1)[i];
      NotBelow(m, root, q, k, y);
    }
  }

  lemma CombiningDone<T>(m: Memory<T>, root: Id, q: Id, k: nat, m2: Memory<T>, m4: Memory<T>)
    requires Combining(m, root, q, k, m2, m4)
    ensures k + 1 < |m[q].branch| && Combined(m, m4 - {m[q].branch[k + 1]}, q, k)
  {
    hide Combining, Pair, Linked, PairBranches, PairItems, Without, Leads, Same, Distinct;
    CombiningFacts(m, root, q, k, m2, m4);
    CombiningUpper(m, root, q, k, m2, m4);
    CombiningKids(m, root, q, k, m2, m4);
    PairFacts(m, root, q, k);
    var l, r, b, b' := m[q].branch[k], m[q].branch[k + 1], PairBranches(m, q, k), Without(m[q].branch, k + 1);
    var m5 := m4 - {r};
    forall i: nat | i < |b'|
      ensures b'[i] in m5 && m5[b'[i]].parent == q && m5[b'[i]].k == i && (i == k ==> b'[i] == l && m5[l] == m2[l])
    {
      CombiningBranch(m, root, q, k, m2, m4, i);
    }
    assert b'[k] == l;
    forall y | y in m && y != q && y != l && y != r
      ensures Same(m, m5, y) && (y !in b && y !in m[q].branch ==> m5[y] == m[y])
    {
      SameTwice(m, m2, m4, y);
      SameBut(m, m4, r, y);
    }
  }

  lemma SameBut<T>(m: Memory<T>, m': Memory<T>, r: Id, y: Id)
    requires Same(m, m', y) && y != r
    ensures Same(m, m' - {r}, y)
  {
  }

  lemma DividedIs<T>(m: Memory<T>, root: Id, q: Id, k: nat, n: nat, m1: Memory<T>)
    requires Pair(m, root, q, k) && m[q].branch[k] in m && m[q].branch[k + 1] in m && k < |m[q].item|
    requires n < |PairItems(m, q, k)| && (PairBranches(m, q, k) != [] ==> n + 1 <= |PairBranches(m, q, k)|)
    requires var l, r, it, b := m[q].branch[k], m[q].branch[k + 1], PairItems(m, q, k), PairBranches(m, q, k);
             && m1.Keys == m.Keys
             && m1[q] == m[q].(item := m[q].item[k := it[n]])
             && m1[l] == m[l].(item := it[..n], branch := if b == [] then [] else b[..n + 1])
             && m1[r] == m[r].(item := it[n + 1..], branch := if b == [] then [] else b[n + 1..])
             && (forall y | y in m && y != q && y != l && y != r :: m1[y] == m[y])
    ensures m1 == Divided(m, q, k, n)
  {
    PairFacts(m, root, q, k);
    hide Divided, Pair, Linked, PairItems, PairBranches;
    DividedFacts(m, root, q, k, n);
    var m2 := Divided(m, q, k, n);
    forall y | y in m
      ensures y in m2 && m1[y] == m2[y]
    {
      assert y == q || y == m[q].branch[k] || y == m[q].branch[k + 1] || m1[y] == m[y];
    }
    SameMaps(m1, m2);
  }

  lemma SameMaps<K, V>(m1: map<K, V>, m2: map<K, V>)
    requires m1.Keys == m2.Keys && forall y | y in m1 :: m1[y] == m2[y]
    ensures m1 == m2
  {
    assert forall y :: y in m1.Keys <==> y in m2.Keys;
  }

  /** Where the row is divided when the first item of r moves to l. */
  lemma LeftNumbers<T>(m: Memory<T>, root: Id, q: Id, k: nat)
    requires Pair(m, root, q, k) && m[q].branch[k] in m && m[q].branch[k + 1] in m && k < |m[q].item|
    requires m[m[q].branch[k + 1]].item != []
    ensures var l, r, it, b := m[m[q].branch[k]], m[m[q].branch[k + 1]], PairItems(m, q, k), PairBranches(m, q, k);
            var n := |l.item| + 1;
            && n < |it| && it[..n] == l.item + [m[q].item[k]] && it[n] == r.item[0] && it[n + 1..] == r.item[1..]
            && (r.depth == 0 ==> l.branch == [] == b == r.branch)
            && (r.depth > 0 ==> n < |b| && |r.branch| > 0 && b[n] == r.branch[0] &&
                                b[..n + 1] == l.branch + [r.branch[0]] && b[n + 1..] == r.branch[1..])
            && (r.depth > 0 ==> |l.branch| == n)
  {
    PairFacts(m, root, q, k);
    PairIs(m, q, k);
    hide Pair, Linked, Leads, PairItems, PairBranches;
  }

  /** Where the row is divided when the last item of l moves to r. */
  lemma RightNumbers<T>(m: Memory<T>, root: Id, q: Id, k: nat)
    requires Pair(m, root, q, k) && m[q].branch[k] in m && m[q].branch[k + 1] in m && k < |m[q].item|
    requires m[m[q].branch[k]].item != []
    ensures var l, r, it, b := m[m[q].branch[k]], m[m[q].branch[k + 1]], PairItems(m, q, k), PairBranches(m, q, k);
            var n := |l.item| - 1;
            && n < |it| && it[..n] == l.item[..n] && it[n] == l.item[n] && it[n + 1..] == [m[q].item[k]] + r.item
            && (r.depth == 0 ==> l.branch == [] == b == r.branch)
            && (r.depth > 0 ==> n + 1 < |b| && |l.branch| == n + 2 && b[..n + 1] == l.branch[..n + 1] &&
                                b[n + 1..] == [l.branch[n + 1]] + r.branch)
  {
    PairFacts(m, root, q, k);
    PairIs(m, q, k);
    hide Pair, Linked, Leads, PairItems, PairBranches;
  }

  // ---------- Dropping an empty root ----------

  /** The root has no items left; its only branch becomes the root. */
  ghost predicate Collapsed<T>(m: Memory<T>, root: Id, m': Memory<T>, c: Id) {
    && root in m && m[root].depth > 0 && m[root].item == [] && m[root].branch == [c] && c in m && c != root
    && m' == (m - {root})[c := m[c].(parent := NULL)]
  }

  lemma CollapsedFacts<T>(m: Memory<T>, root: Id, m': Memory<T>, c: Id)
    requires Linked(m, root, NULL) && Collapsed(m, root, m', c)
    ensures root in m && c in m && c != root && c != NULL && m'.Keys == m.Keys - {root}
    ensures m'[c] == m[c].(parent := NULL) && m[c].depth + 1 == m[root].depth && m[c].parent == root
    ensures forall y | y in m && y != root && y != c :: m'[y] == m[y] && m[y].depth < m[c].depth && m[y].parent != root
  {
    BranchFacts(m, root, NULL, root, 0);
    forall y | y in m && y != root && y != c
      ensures m[y].depth < m[c].depth && m[y].parent != root
    {
      OnlyChild(m, root, c, y);
    }
  }

  lemma OnlyChild<T>(m: Memory<T>, root: Id, c: Id, y: Id)
    requires Linked(m, root, NULL) && m[root].branch == [c] && y in m && y != root
    ensures m[y].parent == root ==> y == c
    ensures m[y].parent != root ==> m[y].depth + 1 < m[root].depth
  {
    ParentFacts(m, root, NULL, y);
    assert m[y].parent != NULL;
    hide Leads;
    assert m[y].parent != root ==> m[m[y].parent].depth < m[root].depth;
  }

  lemma CollapsedLinked<T>(m: Memory<T>, root: Id, m': Memory<T>, c: Id)
    requires Linked(m, root, NULL) && Collapsed(m, root, m', c)
    ensures Linked(m', c, NULL)
  {
    CollapsedFacts(m, root, m', c);
    forall y | y in m'
      ensures Leads(m', y) && Wired(m', NULL, y)
    {
      assert Leads(m, y) && Wired(m, NULL, y);
      NoRootBranch(m, root, y);
      OnlyParent(m, root, NULL, c, y);
      forall i: nat | i < |m[y].branch|
        ensures m[y].branch[i] != root && m[y].branch[i] != c
      {
        assert m[y].branch[i] in m[y].branch;
      }
    }
    forall y | y in m' && y != c
      ensures Attached(m', y) && m'[y].depth < m'[c].depth
    {
      assert Attached(m, y);
    }
  }

  lemma CollapsedItems<T>(m: Memory<T>, root: Id, m': Memory<T>, c: Id)
    requires Linked(m, root, NULL) && Collapsed(m, root, m', c)
    ensures c in m' && root in m && Contents(m', c) == Contents(m, root)
  {
    CollapsedFacts(m, root, m', c);
    LinkedFacts(m, root, NULL);
    assert m[root].branch == [c] && m[root].item == [];
    hide Items, Woven, Linked, Leads, Collapsed;
    var d := m[c].depth;
    NodeItems(m, map[], root, d + 1);
    WovenLast(m, map[], c, d);
    forall y | y in m && m[y].depth < d + 1
      ensures Same(m, m', y)
    {
    }
    LowerItems(m, m', d + 1, c);
  }
}
