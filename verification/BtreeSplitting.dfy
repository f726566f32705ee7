/** The steps by which a full node is split, one after the other. */
module BtreeSplitting {
  import opened BtreeMemory
  import opened BtreeInsertion

  /** Put item x, and branch xr to its right, into a row at position k. */
  function WithItem<T>(n: Node<T>, x: T, xr: Id, k: nat): Node<T>
    requires k <= |n.item| && (n.depth > 0 ==> k < |n.branch|)
  {
    n.(item := RowItems(n, x, k), branch := RowBranches(n, xr, k))
  }

  /** The number of items that node p keeps at first. */
  function SplitPoint(k: nat): nat {
    if k <= MIN then MIN else MIN + 1
  }

  /** The new node at first: its leftmost branch is still open. */
  function RightHalf<T>(n: Node<T>, split: nat): Node<T>
    requires split <= |n.item| && (n.depth > 0 ==> split < |n.branch|)
  {
    Node(n.parent, 0, n.depth, n.item[split..], if n.depth == 0 then [] else [NULL] + n.branch[split + 1..])
  }

  function LeftHalf<T>(n: Node<T>, split: nat): Node<T>
    requires split <= |n.item| && (n.depth > 0 ==> split < |n.branch|)
  {
    n.(item := n.item[..split], branch := if n.depth == 0 then [] else n.branch[..split + 1])
  }

  ghost predicate Full<T>(n: Node<T>, k: nat) {
    |n.item| == MAX && k <= MAX && |n.branch| == if n.depth == 0 then 0 else MAX + 1
  }

  function Splice<T>(a: seq<T>, i: nat, x: T): seq<T>
    requires i <= |a|
  {
    a[..i] + [x] + a[i..]
  }

  lemma SpliceBefore<T>(a: seq<T>, i: nat, x: T, s: nat)
    requires i <= s <= |a|
    ensures Splice(a[..s], i, x) == Splice(a, i, x)[..s + 1] && a[s..] == Splice(a, i, x)[s + 1..]
  {
  }

  lemma SpliceAfter<T>(a: seq<T>, i: nat, x: T, s: nat)
    requires s <= i <= |a|
    ensures a[..s] == Splice(a, i, x)[..s] && Splice(a[s..], i - s, x) == Splice(a, i, x)[s..]
  {
  }

  lemma SpliceFront<T>(y: T, a: seq<T>, i: nat, x: T)
    requires i <= |a|
    ensures Splice([y] + a, i + 1, x) == [y] + Splice(a, i, x)
  {
  }

  lemma RowsAreSpliced<T>(n: Node<T>, x: T, xr: Id, k: nat)
    requires k <= |n.item| && (n.depth > 0 ==> k < |n.branch|)
    ensures RowItems(n, x, k) == Splice(n.item, k, x)
    ensures n.depth > 0 ==> RowBranches(n, xr, k) == Splice(n.branch, k + 1, xr)
    ensures n.depth == 0 ==> RowBranches(n, xr, k) == []
  {
  }

  /** On either side, the item ends up in its place of the whole row. */
  lemma RowsLeft<T>(n: Node<T>, x: T, xr: Id, k: nat)
    requires Full(n, k) && k <= MIN
    ensures var it, b := RowItems(n, x, k), RowBranches(n, xr, k);
            var l, r := WithItem(LeftHalf(n, MIN), x, xr, k), RightHalf(n, MIN);
            && l.item == it[..MIN + 1] && r.item == it[MIN + 1..] && |it| == MAX + 1
            && (n.depth > 0 ==> |b| == MAX + 2 && l.branch == b[..MIN + 2] && r.branch == [NULL] + b[MIN + 2..])
            && (n.depth == 0 ==> l.branch == [] == r.branch == b)
  {
    RowsAreSpliced(n, x, xr, k);
    RowsAreSpliced(LeftHalf(n, MIN), x, xr, k);
    SpliceBefore(n.item, k, x, MIN);
    if n.depth > 0 {
      SpliceBefore(n.branch, k + 1, xr, MIN + 1);
    }
  }

  lemma RowsRight<T>(n: Node<T>, x: T, xr: Id, k: nat)
    requires Full(n, k) && k > MIN
    ensures var s := MIN + 1;
            var it, b := RowItems(n, x, k), RowBranches(n, xr, k);
            var l, r := LeftHalf(n, s), WithItem(RightHalf(n, s), x, xr, k - s);
            && l.item == it[..MIN + 1] && r.item == it[MIN + 1..] && |it| == MAX + 1
            && (n.depth > 0 ==> |b| == MAX + 2 && l.branch == b[..MIN + 2] && r.branch == [NULL] + b[MIN + 2..])
            && (n.depth == 0 ==> l.branch == [] == r.branch == b)
  {
    var s := MIN + 1;
    RowsAreSpliced(n, x, xr, k);
    RowsAreSpliced(RightHalf(n, s), x, xr, k - s);
    SpliceAfter(n.item, k, x, s);
    if n.depth > 0 {
      SpliceAfter(n.branch, k + 1, xr, s + 1);
      SpliceFront(NULL, n.branch[s + 1..], k - s, xr);
    }
  }

  /** Before the middle branch changes sides: p still has the median and its right branch. */
  ghost predicate Sided<T>(m: Memory<T>, m': Memory<T>, p: Id, k: nat, x: T, xr: Id, r: Id) {
    && p in m && Full(m[p], k) && r !in m && r != NULL && m'.Keys == m.Keys + {r}
    && var it, b := RowItems(m[p], x, k), RowBranches(m[p], xr, k);
    && m'[p] == m[p].(item := it[..MIN + 1], branch := if b == [] then [] else b[..MIN + 2])
    && m'[r].item == it[MIN + 1..] && m'[r].branch == (if b == [] then [] else [NULL] + b[MIN + 2..])
    && m'[r].depth == m[p].depth
    && (forall i | 0 <= i < |b| :: b[i] in m && b[i] != p &&
          m'[b[i]].parent == (if i <= MIN + 1 then p else r) && m'[b[i]].k == (if i <= MIN + 1 then i else i - MIN - 1))
    && (forall y | y in m && y != p :: Same(m, m', y) && (y !in b ==> m'[y] == m[y]))
  }

  /** The middle branch goes over to r, and the median out. */
  ghost function Finished<T>(m: Memory<T>, p: Id, r: Id): Memory<T>
    requires p in m && r in m && |m[p].item| == MIN + 1
  {
    if m[p].depth == 0 || |m[p].branch| < MIN + 2 || |m[r].branch| == 0 || m[p].branch[MIN + 1] !in m
    then m[p := m[p].(item := m[p].item[..MIN])]
    else
      var c := m[p].branch[MIN + 1];
      m[r := m[r].(branch := m[r].branch[0 := c])][c := m[c].(parent := r, k := 0)]
       [p := m[p].(item := m[p].item[..MIN], branch := m[p].branch[..MIN + 1])]
  }

  lemma FinishedFacts<T>(m: Memory<T>, p: Id, r: Id)
    requires p in m && r in m && p != r && |m[p].item| == MIN + 1
    requires m[p].depth > 0 ==> |m[p].branch| == MIN + 2 && |m[r].branch| > 0
    requires m[p].depth > 0 ==> m[p].branch[MIN + 1] in m && m[p].branch[MIN + 1] != p && m[p].branch[MIN + 1] != r
    requires m[p].depth == 0 ==> m[p].branch == []
    ensures var m' := Finished(m, p, r);
            && m'.Keys == m.Keys
            && m'[p] == m[p].(item := m[p].item[..MIN],
                              branch := if m[p].depth == 0 then [] else m[p].branch[..MIN + 1])
            && m'[r] == m[r].(branch := if m[p].depth == 0 then m[r].branch else m[r].branch[0 := m[p].branch[MIN + 1]])
            && (m[p].depth > 0 ==> var c := m[p].branch[MIN + 1]; m'[c] == m[c].(parent := r, k := 0))
            && (forall y | y in m && y != p && y != r && (m[p].depth > 0 ==> y != m[p].branch[MIN + 1]) ::
                  m'[y] == m[y])
  {
  }

  lemma SplitDone<T>(m: Memory<T>, m4: Memory<T>, p: Id, k: nat, x: T, xr: Id, r: Id)
    requires Leads(m, p) && Sided(m, m4, p, k, x, xr, r) && |RowItems(m[p], x, k)| == MAX + 1
    requires |RowBranches(m[p], xr, k)| == if m[p].depth == 0 then 0 else MAX + 2
    requires Distinct(RowBranches(m[p], xr, k))
    ensures Split(m, Finished(m4, p, r), p, k, x, xr, RowItems(m[p], x, k)[MIN], r)
  {
    var it, b := RowItems(m[p], x, k), RowBranches(m[p], xr, k);
    var m6 := Finished(m4, p, r);
    hide RowItems, RowBranches, Leads, Finished, Same;
    FinishedFacts(m4, p, r);
    SplitRows(it, b);
    forall i | 0 <= i < |b|
      ensures b[i] in m
      ensures m6[b[i]].parent == (if i <= MIN then p else r) && m6[b[i]].k == (if i <= MIN then i else i - MIN - 1)
    {
      SplitBranch(m, m4, m6, b, p, r, i);
    }
    forall y | y in m && y != p
      ensures Same(m, m6, y) && (y !in b ==> m6[y] == m[y])
    {
      SplitOther(m, m4, m6, r, y);
    }
  }

  lemma SplitBranch<T>(m: Memory<T>, m4: Memory<T>, m6: Memory<T>, b: seq<Id>, p: Id, r: Id, i: nat)
    requires i < |b| == MAX + 2 && Distinct(b) && r !in m && m4.Keys == m6.Keys == m.Keys + {r}
    requires b[i] in m && b[i] != p
    requires m4[b[i]].parent == (if i <= MIN + 1 then p else r)
    requires m4[b[i]].k == (if i <= MIN + 1 then i else i - MIN - 1)
    requires b[MIN + 1] in m4 && m6[b[MIN + 1]] == m4[b[MIN + 1]].(parent := r, k := 0)
    requires forall y | y in m4 && y != p && y != r && y != b[MIN + 1] :: m6[y] == m4[y]
    ensures m6[b[i]].parent == (if i <= MIN then p else r) && m6[b[i]].k == (if i <= MIN then i else i - MIN - 1)
  {
  }

  lemma SplitRows<T>(it: seq<T>, b: seq<Id>)
    requires |it| == MAX + 1 && (b == [] || |b| == MAX + 2)
    ensures it[..MIN + 1][..MIN] == it[..MIN]
    ensures b != [] ==> b[..MIN + 2][..MIN + 1] == b[..MIN + 1]
    ensures b != [] ==> ([NULL] + b[MIN + 2..])[0 := b[MIN + 1]] == b[MIN + 1..]
  {
  }

  /** A node that keeps its items and branches is the same, wherever it hangs. */
  lemma SplitOther<T>(m: Memory<T>, m4: Memory<T>, m6: Memory<T>, r: Id, y: Id)
    requires y in m && y in m4 && y in m6 && Same(m, m4, y)
    requires m6[y] == m4[y] || m6[y] == m4[y].(parent := r, k := 0)
    ensures Same(m, m6, y)
  {
  }

  // ---------- The steps up to there ----------

  /** The new node takes its half of the row, then p gives it up. */
  ghost predicate Halved<T>(m: Memory<T>, m3: Memory<T>, p: Id, r: Id, s: nat) {
    && p in m && |m[p].item| == MAX && |m[p].branch| == (if m[p].depth == 0 then 0 else MAX + 1) && s <= MIN + 1
    && r !in m && r != NULL && m3.Keys == m.Keys + {r}
    && m3[p] == LeftHalf(m[p], s) && m3[r] == RightHalf(m[p], s)
    && (forall i | s + 1 <= i < |m[p].branch| ::
          var y := m[p].branch[i]; y in m && m3[y].parent == r && m3[y].k == i - s)
    && (forall y | y in m && y != p :: Same(m, m3, y) &&
                                       (!Among(m[p].branch, s + 1, |m[p].branch|, y) ==> m3[y] == m[y]))
  }

  lemma HalvedSteps<T>(m: Memory<T>, root: Id, xr: Id, m2: Memory<T>, p: Id, r: Id, s: nat)
    requires Linked(m, root, xr) && p in m && Full(m[p], 0) && s <= MIN + 1 && r !in m && r != NULL
    requires var h := RightHalf(m[p], s); Adopted(m[r := h], m2, r, if m[p].depth == 0 then 0 else 1, |h.branch|)
    ensures p in m2 && m2[p] == m[p] && Halved(m, m2[p := LeftHalf(m[p], s)], p, r, s)
  {
    var b, h := m[p].branch, RightHalf(m[p], s);
    var m1 := m[r := h];
    var m3 := m2[p := LeftHalf(m[p], s)];
    var from := if m[p].depth == 0 then 0 else 1;
    forall i: nat | i < |b|
      ensures b[i] in m && b[i] != p && b[i] != r
    {
      BranchFacts(m, root, xr, p, i);
    }
    RightHalfBranches(m[p], s);
    hide *;
    NotAmong(h.branch, from, p);
    NotAmong(h.branch, from, r);
    forall y | y in m && y != p
      ensures OneHalved(m, m2, b, s, y)
    {
      HalvedOther(m, m1, m2, h, r, b, s, from, y);
    }
    HalvedAll(m, m1, m2, h, p, r, s, from);
  }

  lemma RightHalfBranches<T>(n: Node<T>, s: nat)
    requires Full(n, 0) && s <= MIN + 1
    ensures var h, b := RightHalf(n, s).branch, n.branch;
            && |h| == (if n.depth == 0 then 0 else |b| - s)
            && forall i | 1 <= i < |h| :: i + s < |b| && h[i] == b[i + s]
  {
  }

  lemma NotAmong(b: seq<Id>, from: nat, y: Id)
    requires forall i | from <= i < |b| :: b[i] != y
    ensures !Among(b, from, |b|, y)
  {
  }

  ghost predicate OneHalved<T>(m: Memory<T>, m2: Memory<T>, b: seq<Id>, s: nat, y: Id)
    requires y in m
  {
    y in m2 && Same(m, m2, y) && (!Among(b, s + 1, |b|, y) ==> m2[y] == m[y])
  }

  lemma HalvedAll<T>(m: Memory<T>, m1: Memory<T>, m2: Memory<T>, h: Node<T>, p: Id, r: Id, s: nat, from: nat)
    requires p in m && r !in m && r != NULL && m1 == m[r := h] && Adopted(m1, m2, r, from, |h.branch|)
    requires Full(m[p], 0) && s <= MIN + 1 && h == RightHalf(m[p], s) && from == if m[p].depth == 0 then 0 else 1
    requires forall i: nat | i < |m[p].branch| :: m[p].branch[i] in m && m[p].branch[i] != p && m[p].branch[i] != r
    requires forall i | 1 <= i < |h.branch| :: i + s < |m[p].branch| && h.branch[i] == m[p].branch[i + s]
    requires |h.branch| == if m[p].depth == 0 then 0 else |m[p].branch| - s
    requires !Among(h.branch, from, |h.branch|, p) && !Among(h.branch, from, |h.branch|, r)
    requires forall y | y in m && y != p :: OneHalved(m, m2, m[p].branch, s, y)
    ensures m2[p] == m[p] && Halved(m, m2[p := LeftHalf(m[p], s)], p, r, s)
  {
    hide Same, Among, LeftHalf, RightHalf;
    var b, m3 := m[p].branch, m2[p := LeftHalf(m[p], s)];
    forall i | s + 1 <= i < |b|
      ensures m3[b[i]].parent == r && m3[b[i]].k == i - s
    {
      assert h.branch[i - s] == b[i];
    }
    forall y | y in m && y != p
      ensures Same(m, m3, y) && (!Among(b, s + 1, |b|, y) ==> m3[y] == m[y])
    {
      assert OneHalved(m, m2, b, s, y);
      SameIs(m, m2, m3, y);
    }
  }

  lemma SameIs<T>(m: Memory<T>, m2: Memory<T>, m3: Memory<T>, y: Id)
    requires y in m && y in m2 && y in m3 && m2[y] == m3[y] && Same(m, m2, y)
    ensures Same(m, m3, y)
  {
  }

  /** A node that is not split keeps all but, if it is on the right, where it hangs. */
  lemma HalvedOther<T>(m: Memory<T>, m1: Memory<T>, m2: Memory<T>, h: Node<T>, r: Id, b: seq<Id>, s: nat, from: nat,
                       y: Id)
    requires y in m && r !in m && m1 == m[r := h] && from <= 1 && Adopted(m1, m2, r, from, |h.branch|)
    requires forall i | 1 <= i < |h.branch| :: i + s < |b| && h.branch[i] == b[i + s]
    requires from == 1 || |h.branch| == 0
    ensures OneHalved(m, m2, b, s, y)
  {
    assert Same(m1, m2, y);
    if Among(h.branch, from, |h.branch|, y) {
      var i :| from <= i < |h.branch| && h.branch[i] == y;
      assert b[i + s] == y;
    }
  }

  lemma RowFacts<T>(m: Memory<T>, root: Id, p: Id, k: nat, xr: Id)
    requires Ready(m, root, p, k, xr) && |m[p].item| == MAX
    ensures Full(m[p], k) && |RowBranches(m[p], xr, k)| == if m[p].depth == 0 then 0 else MAX + 2
    ensures var b := RowBranches(m[p], xr, k);
            && Distinct(b)
            && (forall i: nat | i < |b| :: b[i] in m && b[i] != p && b[i] != NULL && (b[i] == xr <==> i == k + 1)
                 && (i <= k ==> b[i] == m[p].branch[i]) && (i > k + 1 ==> b[i] == m[p].branch[i - 1])
                 && (i <= k ==> m[b[i]].parent == p && m[b[i]].k == i))
  {
    ReadyFacts(m, root, p, k, xr);
    RowAt(m[p], xr, k);
    RowDistinct(m, root, p, k, xr);
    forall i: nat | i < |RowBranches(m[p], xr, k)|
      ensures var b := RowBranches(m[p], xr, k);
              && b[i] in m && b[i] != p && b[i] != NULL && (b[i] == xr <==> i == k + 1)
              && (i <= k ==> m[b[i]].parent == p && m[b[i]].k == i)
    {
      hide RowBranches, Ready, Leads;
      RowKid(m, root, p, k, xr, i);
    }
  }

  ghost predicate SameButRow<T>(m: Memory<T>, m4: Memory<T>, b: seq<Id>, y: Id)
    requires y in m
  {
    y in m4 && Same(m, m4, y) && (y !in b ==> m4[y] == m[y])
  }

  lemma HalvedParts<T>(m: Memory<T>, m3: Memory<T>, p: Id, r: Id, s: nat)
    requires Halved(m, m3, p, r, s)
    ensures p in m && r !in m && r != NULL && m3.Keys == m.Keys + {r} && |m[p].item| == MAX
    ensures |m[p].branch| == (if m[p].depth == 0 then 0 else MAX + 1) && s <= MIN + 1
    ensures m3[p] == LeftHalf(m[p], s) && m3[r] == RightHalf(m[p], s)
    ensures forall y | y in m && y != p :: Same(m, m3,
                                                y) && (!Among(m[p].branch, s + 1, |m[p].branch|, y) ==> m3[y] == m[y])
  {
    hide Same, Among, LeftHalf, RightHalf;
  }

  lemma SidedAll<T>(m: Memory<T>, m4: Memory<T>, p: Id, k: nat, x: T, xr: Id, r: Id)
    requires p in m && Full(m[p], k) && r !in m && r != NULL && m4.Keys == m.Keys + {r}
    requires var it, b := RowItems(m[p], x, k), RowBranches(m[p], xr, k);
             && |it| == MAX + 1 && (b == [] || |b| == MAX + 2)
             && m4[p] == m[p].(item := it[..MIN + 1], branch := if b == [] then [] else b[..MIN + 2])
             && m4[r].item == it[MIN + 1..] && m4[r].branch == (if b == [] then [] else [NULL] + b[MIN + 2..])
             && m4[r].depth == m[p].depth
    requires forall i: nat | i < |RowBranches(m[p], xr, k)| ::
               var y := RowBranches(m[p], xr, k)[i];
               && y in m && y in m4 && y != p && m4[y].parent == (if i <= MIN + 1 then p else r)
               && m4[y].k == (if i <= MIN + 1 then i else i - MIN - 1)
    requires forall y | y in m && y != p :: SameButRow(m, m4, RowBranches(m[p], xr, k), y)
    ensures Sided(m, m4, p, k, x, xr, r)
  {
    hide RowItems, RowBranches, Same;
    forall y | y in m && y != p
      ensures Same(m, m4, y) && (y !in RowBranches(m[p], xr, k) ==> m4[y] == m[y])
    {
      assert SameButRow(m, m4, RowBranches(m[p], xr, k), y);
    }
  }

  lemma ChildLeft<T>(m: Memory<T>, root: Id, m3: Memory<T>, m4: Memory<T>, p: Id, k: nat, x: T, xr: Id, r: Id, i: nat)
    requires Ready(m, root, p, k, xr) && |m[p].item| == MAX && k <= MIN && Halved(m, m3, p, r, MIN)
    requires var n := WithItem(m3[p], x, xr, k);
             Adopted(m3[p := n], m4, p, if n.depth == 0 then 0 else k + 1, |n.branch|)
    requires i < |RowBranches(m[p], xr, k)|
    ensures var y := RowBranches(m[p], xr, k)[i];
            && y in m && y != p
            && m4[y].parent == (if i <= MIN + 1 then p else r) && m4[y].k == (if i <= MIN + 1 then i else i - MIN - 1)
  {
    var b, n := RowBranches(m[p], xr, k), WithItem(m3[p], x, xr, k);
    ReadyIs(m, root, p, k, xr);
    LeftFull(m[p], x, xr, k);
    hide Ready, Halved, RowBranches, RowItems, Linked, Leads, WithItem, LeftHalf, RightHalf, Same, Full, Among, Adopted;
    RowSized(m, root, p, k, xr);
    RowsLeft(m[p], x, xr, k);
    HalvedNode(m, m3, p, r, MIN);
    BranchInRow(m, root, p, k, xr, i);
    if k < i <= MIN + 1 {
      assert n.branch[i] == b[i];
      AdoptedAt(m3[p := n], m4, p, k + 1, i);
    } else {
      BranchApart(m, root, m3, p, k, xr, r, n.branch, i);
      AdoptedNot(m3[p := n], m4, p, k + 1, b[i]);
    }
  }

  lemma LeftFull<T>(n: Node<T>, x: T, xr: Id, k: nat)
    requires |n.item| == MAX && k <= MIN && |n.branch| == (if n.depth == 0 then 0 else MAX + 1)
    ensures WithItem(LeftHalf(n, MIN), x, xr, k).depth == n.depth
  {
  }

  /** A branch that is not adopted anew hangs where it did, or was moved with its half. */
  lemma BranchApart<T>(m: Memory<T>, root: Id, m3: Memory<T>, p: Id, k: nat, xr: Id, r: Id, nb: seq<Id>, i: nat)
    requires Ready(m, root, p, k, xr) && |m[p].item| == MAX && k <= MIN && Halved(m, m3, p, r, MIN)
    requires i < |RowBranches(m[p], xr, k)| && (i <= k || i > MIN + 1)
    requires |RowBranches(m[p], xr, k)| == MAX + 2 && nb == RowBranches(m[p], xr, k)[..MIN + 2]
    ensures var y := RowBranches(m[p], xr, k)[i];
            && y in m && y != p && y != r && y in m3 && !Among(nb, k + 1, |nb|, y)
            && m3[y].parent == (if i <= MIN + 1 then p else r) && m3[y].k == (if i <= MIN + 1 then i else i - MIN - 1)
  {
    RowFacts(m, root, p, k, xr);
    HalvedParts(m, m3, p, r, MIN);
    HalvedBranches(m, m3, p, r, MIN);
    hide Ready, Halved, RowBranches, Full, Same, Among;
    LeftPlaces(RowBranches(m[p], xr, k), m[p].branch, nb, k, i);
  }

  lemma LeftPlaces(b: seq<Id>, row: seq<Id>, nb: seq<Id>, k: nat, i: nat)
    requires Distinct(b) && |b| == MAX + 2 && nb == b[..MIN + 2] && |row| == MAX + 1 && k <= MIN
    requires forall j: nat | j < |b| :: (j <= k ==> b[j] == row[j]) && (j > k + 1 ==> b[j] == row[j - 1])
    requires i < |b| && (i <= k || i > MIN + 1)
    ensures !Among(nb, k + 1, |nb|, b[i])
    ensures i <= k ==> !Among(row, MIN + 1, |row|, b[i])
    ensures b[i] == row[if i <= k then i else i - 1]
  {
    forall j | k + 1 <= j < |nb|
      ensures nb[j] != b[i]
    {
      assert nb[j] == b[j];
    }
    forall j | MIN + 1 <= j < |row|
      ensures i <= k ==> row[j] != b[i]
    {
      assert row[j] == b[j + 1];
    }
  }

  lemma SidedLeft<T>(m: Memory<T>, root: Id, m3: Memory<T>, m4: Memory<T>, p: Id, k: nat, x: T, xr: Id, r: Id)
    requires Ready(m, root, p, k, xr) && |m[p].item| == MAX && k <= MIN && Halved(m, m3, p, r, MIN)
    requires var n := WithItem(m3[p], x, xr, k);
             Adopted(m3[p := n], m4, p, if n.depth == 0 then 0 else k + 1, |n.branch|)
    ensures Sided(m, m4, p, k, x, xr, r)
  {
    RowFacts(m, root, p, k, xr);
    RowsLeft(m[p], x, xr, k);
    var b, n := RowBranches(m[p], xr, k), WithItem(m3[p], x, xr, k);
    var from := if n.depth == 0 then 0 else k + 1;
    forall i: nat | i < |b|
      ensures m4[b[i]].parent == (if i <= MIN + 1 then p else r)
      ensures m4[b[i]].k == (if i <= MIN + 1 then i else i - MIN - 1)
    {
      ChildLeft(m, root, m3, m4, p, k, x, xr, r, i);
    }
    assert forall j | 0 <= j < |n.branch| :: n.branch[j] == b[j];
    assert forall j | MIN + 1 <= j < |m[p].branch| :: b[j + 1] == m[p].branch[j];
    NotAmong(n.branch, from, p);
    NotAmong(n.branch, from, r);
    var whole := Adopted(m3[p := n], m4, p, from, |n.branch|);
    HalvedParts(m, m3, p, r, MIN);
    assert m4.Keys == m3.Keys && whole && m4[p] == n && m4[r] == m3[r];
    hide Ready, Halved, RowBranches, RowItems, Linked, Leads, WithItem, LeftHalf, RightHalf, Same, Full, Among, Adopted;
    forall y | y in m && y != p
      ensures SameButRow(m, m4, b, y)
    {
      SidedOtherLeft(m, m3, n, m4, m[p].branch, b, p, from, y);
    }
    SidedAll(m, m4, p, k, x, xr, r);
  }

  lemma SidedOtherLeft<T>(m: Memory<T>, m3: Memory<T>, n: Node<T>, m4: Memory<T>, row: seq<Id>, b: seq<Id>, p: Id,
                          from: nat, y: Id)
    requires y in m && y in m3 && y != p && Adopted(m3[p := n], m4, p, from, |n.branch|)
    requires Same(m, m3, y) && (!Among(row, MIN + 1, |row|, y) ==> m3[y] == m[y])
    requires forall j | 0 <= j < |n.branch| :: j < |b| && n.branch[j] == b[j]
    requires forall j | MIN + 1 <= j < |row| :: row[j] in b
    ensures SameButRow(m, m4, b, y)
  {
    assert Same(m3[p := n], m4, y);
  }

  lemma ChildRight<T>(m: Memory<T>, root: Id, m3: Memory<T>, m4: Memory<T>, p: Id, k: nat, x: T, xr: Id, r: Id, i: nat)
    requires Ready(m, root, p, k, xr) && |m[p].item| == MAX && k > MIN && Halved(m, m3, p, r, MIN + 1)
    requires var n := WithItem(m3[r], x, xr, k - MIN - 1);
             Adopted(m3[r := n], m4, r, if n.depth == 0 then 0 else k - MIN, |n.branch|)
    requires i < |RowBranches(m[p], xr, k)|
    ensures var y := RowBranches(m[p], xr, k)[i];
            && y in m && y != p
            && m4[y].parent == (if i <= MIN + 1 then p else r) && m4[y].k == (if i <= MIN + 1 then i else i - MIN - 1)
  {
    var b, n := RowBranches(m[p], xr, k), WithItem(m3[r], x, xr, k - MIN - 1);
    ReadyIs(m, root, p, k, xr);
    RightFull(m[p], x, xr, k);
    var s: nat, from: nat := MIN + 1, k - MIN;
    hide Ready, Halved, RowBranches, RowItems, Linked, Leads, WithItem, LeftHalf, RightHalf, Same, Full, Among, Adopted;
    RowSized(m, root, p, k, xr);
    RowsRight(m[p], x, xr, k);
    HalvedNode(m, m3, p, r, s);
    if i <= k {
      BranchBefore(m, root, m3, p, k, xr, r, n.branch, i);
      AdoptedNot(m3[r := n], m4, r, from, b[i]);
    } else {
      BranchInRow(m, root, p, k, xr, i);
      LaterPlaces(n.branch, b, i);
      AdoptedAt(m3[r := n], m4, r, from, i - s);
    }
  }

  lemma ReadyIs<T>(m: Memory<T>, root: Id, p: Id, k: nat, xr: Id)
    requires Ready(m, root, p, k, xr) && |m[p].item| == MAX
    ensures k <= MAX && |m[p].branch| == if m[p].depth == 0 then 0 else MAX + 1
  {
    RowFacts(m, root, p, k, xr);
  }

  lemma RowSized<T>(m: Memory<T>, root: Id, p: Id, k: nat, xr: Id)
    requires Ready(m, root, p, k, xr) && |m[p].item| == MAX
    ensures Full(m[p], k) && |RowBranches(m[p], xr, k)| == if m[p].depth == 0 then 0 else MAX + 2
  {
    RowFacts(m, root, p, k, xr);
  }

  lemma BranchInRow<T>(m: Memory<T>, root: Id, p: Id, k: nat, xr: Id, i: nat)
    requires Ready(m, root, p, k, xr) && |m[p].item| == MAX && i < |RowBranches(m[p], xr, k)|
    ensures var y := RowBranches(m[p], xr, k)[i]; y in m && y != p
  {
    RowFacts(m, root, p, k, xr);
  }

  lemma HalvedNode<T>(m: Memory<T>, m3: Memory<T>, p: Id, r: Id, s: nat)
    requires Halved(m, m3, p, r, s)
    ensures p in m && r !in m && m3.Keys == m.Keys + {r} && |m[p].item| == MAX && s <= MIN + 1
    ensures |m[p].branch| == (if m[p].depth == 0 then 0 else MAX + 1)
    ensures m3[p] == LeftHalf(m[p], s) && m3[r] == RightHalf(m[p], s)
  {
    HalvedParts(m, m3, p, r, s);
  }

  /** A branch before the place of the new one hangs where it did, or was moved with its half. */
  lemma BranchBefore<T>(m: Memory<T>, root: Id, m3: Memory<T>, p: Id, k: nat, xr: Id, r: Id, nb: seq<Id>, i: nat)
    requires Ready(m, root, p, k, xr) && |m[p].item| == MAX && MIN < k && Halved(m, m3, p, r, MIN + 1)
    requires i <= k && i < |RowBranches(m[p], xr, k)| && nb == [NULL] + RowBranches(m[p], xr, k)[MIN + 2..]
    ensures var y := RowBranches(m[p], xr, k)[i];
            && y in m && y != p && y != r && y in m3 && !Among(nb, k - MIN, |nb|, y)
            && m3[y].parent == (if i <= MIN + 1 then p else r) && m3[y].k == (if i <= MIN + 1 then i else i - MIN - 1)
  {
    RowFacts(m, root, p, k, xr);
    HalvedParts(m, m3, p, r, MIN + 1);
    HalvedBranches(m, m3, p, r, MIN + 1);
    hide Ready, Halved, RowBranches, Full, Same, Among;
    BranchPlaces(RowBranches(m[p], xr, k), m[p].branch, nb, k, i);
  }

  lemma HalvedBranches<T>(m: Memory<T>, m3: Memory<T>, p: Id, r: Id, s: nat)
    requires Halved(m, m3, p, r, s)
    ensures forall i | s + 1 <= i < |m[p].branch| ::
              m[p].branch[i] in m3 && m3[m[p].branch[i]].parent == r && m3[m[p].branch[i]].k == i - s
  {
    hide Same, Among, LeftHalf, RightHalf;
  }

  /** A branch before the place of the new one is not adopted again. */
  lemma BranchPlaces(b: seq<Id>, row: seq<Id>, nb: seq<Id>, k: nat, i: nat)
    requires Distinct(b) && |b| == MAX + 2 && nb == [NULL] + b[MIN + 2..] && |row| == MAX + 1 && MIN < k <= MAX
    requires forall j: nat | j < |b| :: (j <= k ==> b[j] == row[j]) && (j > k + 1 ==> b[j] == row[j - 1])
    requires i <= k
    ensures !Among(nb, k - MIN, |nb|, b[i])
    ensures i <= MIN + 1 ==> !Among(row, MIN + 2, |row|, b[i])
    ensures b[i] == row[i]
  {
    forall j | k - MIN <= j < |nb|
      ensures nb[j] != b[i]
    {
      assert nb[j] == b[j + MIN + 1];
    }
    forall j | MIN + 2 <= j < |row|
      ensures i <= MIN + 1 ==> row[j] != b[i]
    {
      assert row[j] == b[if j <= k then j else j + 1];
    }
  }

  lemma LaterPlaces(nb: seq<Id>, b: seq<Id>, i: nat)
    requires |b| == MAX + 2 && nb == [NULL] + b[MIN + 2..] && MIN + 1 < i < |b|
    ensures i - MIN - 1 < |nb| && nb[i - MIN - 1] == b[i]
  {
  }

  lemma AdoptedNot<T>(m: Memory<T>, m': Memory<T>, r: Id, from: nat, y: Id)
    requires r in m && y in m && Adopted(m, m', r, from, |m[r].branch|) && !Among(m[r].branch, from, |m[r].branch|, y)
    ensures y in m' && m'[y] == m[y]
  {
    hide Same, Among;
  }

  lemma AdoptedAt<T>(m: Memory<T>, m': Memory<T>, r: Id, from: nat, j: nat)
    requires r in m && Adopted(m, m', r, from, |m[r].branch|) && from <= j < |m[r].branch|
    ensures m[r].branch[j] in m' && m'[m[r].branch[j]].parent == r && m'[m[r].branch[j]].k == j
  {
    hide Same, Among;
  }

  lemma SidedRight<T>(m: Memory<T>, root: Id, m3: Memory<T>, m4: Memory<T>, p: Id, k: nat, x: T, xr: Id, r: Id)
    requires Ready(m, root, p, k, xr) && |m[p].item| == MAX && k > MIN && Halved(m, m3, p, r, MIN + 1)
    requires var n := WithItem(m3[r], x, xr, k - MIN - 1);
             Adopted(m3[r := n], m4, r, if n.depth == 0 then 0 else k - MIN, |n.branch|)
    ensures Sided(m, m4, p, k, x, xr, r)
  {
    var b, n := RowBranches(m[p], xr, k), WithItem(m3[r], x, xr, k - MIN - 1);
    var from := if n.depth == 0 then 0 else k - MIN;
    RightFull(m[p], x, xr, k);
    hide Ready, Halved, RowBranches, RowItems, Linked, Leads, WithItem, LeftHalf, RightHalf, Same, Full, Among, Adopted;
    hide Distinct, Sided;
    RowFacts(m, root, p, k, xr);
    RowsRight(m[p], x, xr, k);
    HalvedParts(m, m3, p, r, MIN + 1);
    if n.depth > 0 {
      RightIndices(n.branch, b, m[p].branch, k);
    }
    NotAmong(n.branch, from, p);
    NotAmong(n.branch, from, r);
    AdoptedKeeps(m3[r := n], m4, r, from, p);
    forall i: nat | i < |b|
      ensures b[i] in m4 && m4[b[i]].parent == (if i <= MIN + 1 then p else r)
      ensures m4[b[i]].k == (if i <= MIN + 1 then i else i - MIN - 1)
    {
      ChildRight(m, root, m3, m4, p, k, x, xr, r, i);
    }
    forall y | y in m && y != p
      ensures SameButRow(m, m4, b, y)
    {
      SidedOther(m, m3, n, m4, m[p].branch, b, r, from, y);
    }
    SidedAll(m, m4, p, k, x, xr, r);
  }

  lemma RightFull<T>(n: Node<T>, x: T, xr: Id, k: nat)
    requires |n.item| == MAX && MIN < k <= MAX && |n.branch| == (if n.depth == 0 then 0 else MAX + 1)
    ensures Full(n, k) && RightHalf(n, MIN + 1).depth == n.depth == LeftHalf(n, MIN + 1).depth
    ensures WithItem(RightHalf(n, MIN + 1), x, xr, k - MIN - 1).depth == n.depth
    ensures LeftHalf(n, MIN + 1) == n.(item := LeftHalf(n, MIN + 1).item, branch := LeftHalf(n, MIN + 1).branch)
  {
  }

  /** Where the branches of the right half, and of the old row, are in the new row. */
  lemma RightIndices(nb: seq<Id>, b: seq<Id>, row: seq<Id>, k: nat)
    requires |b| == MAX + 2 && nb == [NULL] + b[MIN + 2..] && |row| == MAX + 1 && MIN < k <= MAX
    requires forall i: nat | i < |b| :: (i <= k ==> b[i] == row[i]) && (i > k + 1 ==> b[i] == row[i - 1])
    ensures forall j | 1 <= j < |nb| :: j + MIN + 1 < |b| && nb[j] == b[j + MIN + 1]
    ensures forall j | MIN + 2 <= j < |row| :: row[j] in b
  {
    forall j | MIN + 2 <= j < |row|
      ensures row[j] in b
    {
      assert row[j] == b[if j <= k then j else j + 1];
    }
  }

  lemma AdoptedKeeps<T>(m: Memory<T>, m': Memory<T>, r: Id, from: nat, p: Id)
    requires r in m && p in m && Adopted(m, m', r, from, |m[r].branch|)
    requires !Among(m[r].branch, from, |m[r].branch|, p) && !Among(m[r].branch, from, |m[r].branch|, r)
    ensures m'.Keys == m.Keys && m'[p] == m[p] && m'[r] == m[r]
  {
    hide Same, Among;
  }

  /** A node that has no place in the row, or another one. */
  lemma SidedOther<T>(m: Memory<T>, m3: Memory<T>, n: Node<T>, m4: Memory<T>, row: seq<Id>, b: seq<Id>, r: Id,
                      from: nat, y: Id)
    requires y in m && y in m3 && y != r && Adopted(m3[r := n], m4, r, from, |n.branch|)
    requires Same(m, m3, y) && (!Among(row, MIN + 2, |row|, y) ==> m3[y] == m[y])
    requires from >= 1 || n.branch == []
    requires forall j | 1 <= j < |n.branch| :: j + MIN + 1 < |b| && n.branch[j] == b[j + MIN + 1]
    requires forall j | MIN + 2 <= j < |row| :: row[j] in b
    ensures SameButRow(m, m4, b, y)
  {
    assert Same(m3[r := n], m4, y);
  }
}
