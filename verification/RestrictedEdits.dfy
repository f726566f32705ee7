/** The restricted Damerau-Levenshtein distance as a number of edits of which no two touch the same substring.

What an edit has left stays in its place, even if it is nothing, and no later edit may touch it or reach across it. */
module RestrictedEdits {
  import opened Alignment
  import opened EditMatrix

  /** An element of the source, or what an edit has left. */
  datatype Cell = Untouched(x: Elem) | Left(text: seq<Elem>)

  function Start(s: seq<Elem>): (r: seq<Cell>)
    ensures |r| == |s|
  {
    seq(|s|, i requires 0 <= i < |s| => Untouched(s[i]))
  }

  function Shown(c: Cell): seq<Elem> {
    match c
    case Untouched(x) => [x]
    case Left(text) => text
  }

  /** The string that the cells show. */
  function Text(cells: seq<Cell>): seq<Elem> {
    if cells == [] then [] else Text(cells[..|cells| - 1]) + Shown(cells[|cells| - 1])
  }

  /** How many cells an edit touches. */
  function Width(e: Edit): nat {
    match e
    case Delete(_) => 1
    case Insert(_, _) => 0
    case Substitute(_, _) => 1
    case Transpose(_) => 2
  }

  /** All cells that the edit touches have to be untouched. */
  predicate CanEdit(cells: seq<Cell>, e: Edit) {
    e.p + Width(e) <= |cells| && forall i :: e.p <= i < e.p + Width(e) ==> cells[i].Untouched?
  }

  function Outcome(cells: seq<Cell>, e: Edit): seq<Elem>
    requires CanEdit(cells, e)
  {
    match e
    case Delete(_) => []
    case Insert(_, c) => [c]
    case Substitute(_, c) => [c]
    case Transpose(p) => [cells[p + 1].x, cells[p].x]
  }

  function Edited(cells: seq<Cell>, e: Edit): seq<Cell>
    requires CanEdit(cells, e)
  {
    cells[..e.p] + [Left(Outcome(cells, e))] + cells[e.p + Width(e)..]
  }

  /** The edits es, done one after the other, make the cells show t. */
  ghost predicate Edits(cells: seq<Cell>, es: seq<Edit>, t: seq<Elem>)
    decreases |es|
  {
    if es == [] then Text(cells) == t
    else CanEdit(cells, es[0]) && Edits(Edited(cells, es[0]), es[1..], t)
  }

  // ---------- From edits to alignments ----------

  lemma OneMore(A: seq<Block>, b: Block)
    ensures Src(A + [b]) == Src(A) + Source(b) && Tgt(A + [b]) == Tgt(A) + Target(b)
    ensures Cost(A + [b]) == Cost(A) + Price(b)
  {
    assert (A + [b])[..|A|] == A;
  }

  lemma {:induction false} Joined(A: seq<Block>, B: seq<Block>)
    ensures Src(A + B) == Src(A) + Src(B) && Tgt(A + B) == Tgt(A) + Tgt(B) && Cost(A + B) == Cost(A) + Cost(B)
    decreases |B|
  {
    if B == [] {
      assert A + B == A;
    } else {
      hide *;
      var init, b := B[..|B| - 1], B[|B| - 1];
      assert B == init + [b] && A + B == (A + init) + [b];
      Joined(A, init);
      OneMore(init, b);
      OneMore(A + init, b);
      Join3(Src(A), Src(init), Source(b));
      Join3(Tgt(A), Tgt(init), Target(b));
    }
  }

  lemma Single(b: Block)
    ensures Src([b]) == Source(b) && Tgt([b]) == Target(b) && Cost([b]) == Price(b)
  {
    assert [b][..0] == [];
  }

  /** Every cell is a block: an element paired with itself, or what one edit has done. */
  ghost predicate Describes(A: seq<Block>, cells: seq<Cell>) {
    && |A| == |cells|
    && forall i :: 0 <= i < |A| ==>
         Target(A[i]) == Shown(cells[i]) && (cells[i].Untouched? ==> A[i] == Pair(cells[i].x, cells[i].x))
  }

  lemma {:induction false} StartDescribed(s: seq<Elem>) returns (A: seq<Block>)
    ensures Describes(A, Start(s)) && Valid(RDL, A) && Src(A) == s && Cost(A) == 0
    decreases |s|
  {
    A := [];
    if s != [] {
      A := StartDescribed(s[..|s| - 1]);
      A := Add(RDL, A, Pair(s[|s| - 1], s[|s| - 1]));
      assert s[..|s| - 1] + [s[|s| - 1]] == s;
    }
  }

  lemma {:induction false} DescribedText(A: seq<Block>, cells: seq<Cell>)
    requires Describes(A, cells)
    ensures Tgt(A) == Text(cells)
    decreases |A|
  {
    if A != [] {
      DescribedText(A[..|A| - 1], cells[..|A| - 1]);
    }
  }

  /** What an edit does, as a block. */
  function BlockOf(cells: seq<Cell>, e: Edit): Block
    requires CanEdit(cells, e)
  {
    match e
    case Delete(p) => Del(cells[p].x)
    case Insert(_, c) => Ins(c)
    case Substitute(p, c) => Pair(cells[p].x, c)
    case Transpose(p) => Cross(cells[p].x, [], cells[p + 1].x, [])
  }

  /** The untouched cells that the edit touches. */
  lemma Between(A: seq<Block>, cells: seq<Cell>, e: Edit)
    requires Describes(A, cells) && CanEdit(cells, e)
    ensures var mid := A[e.p..e.p + Width(e)];
            Src(mid) == Source(BlockOf(cells, e)) && Cost(mid) == 0
    ensures Price(BlockOf(cells, e)) <= 1 && Fits(RDL, BlockOf(cells, e))
    ensures Target(BlockOf(cells, e)) == Outcome(cells, e)
  {
    var p := e.p;
    match e
    case Delete(_) =>
      assert A[p..p + 1] == [A[p]];
      Single(A[p]);
    case Insert(_, _) =>
      assert A[p..p] == [];
    case Substitute(_, _) =>
      assert A[p..p + 1] == [A[p]];
      Single(A[p]);
    case Transpose(_) =>
      assert A[p..p + 2] == [A[p]] + [A[p + 1]];
      Joined([A[p]], [A[p + 1]]);
      Single(A[p]);
      Single(A[p + 1]);
  }

  /** An edit replaces the blocks of what it touches by one block, at a cost of at most one. */
  lemma EditDescribed(A: seq<Block>, cells: seq<Cell>, e: Edit) returns (B: seq<Block>)
    requires Describes(A, cells) && Valid(RDL, A) && CanEdit(cells, e)
    ensures Describes(B, Edited(cells, e)) && Valid(RDL, B) && Src(B) == Src(A) && Cost(B) <= Cost(A) + 1
  {
    hide *;
    var p, q, b := e.p, e.p + Width(e), BlockOf(cells, e);
    Between(A, cells, e);
    OneCellLeft(A, cells, e);
    B := A[..p] + [b] + A[q..];
    MiddleReplaced(A, p, q, b);
    StillValid(A, p, q, b);
  }

  lemma OneCellLeft(A: seq<Block>, cells: seq<Cell>, e: Edit)
    requires Describes(A, cells) && CanEdit(cells, e) && Target(BlockOf(cells, e)) == Outcome(cells, e)
    ensures e.p + Width(e) <= |A|
    ensures Describes(A[..e.p] + [BlockOf(cells, e)] + A[e.p + Width(e)..], Edited(cells, e))
  {
    hide Outcome, Target, BlockOf, Width;
    var q, b, now := e.p + Width(e), BlockOf(cells, e), Edited(cells, e);
    var B := A[..e.p] + [b] + A[q..];
    forall i | 0 <= i < |B|
      ensures Target(B[i]) == Shown(now[i]) && (now[i].Untouched? ==> B[i] == Pair(now[i].x, now[i].x))
    {
      if i > e.p {
        assert B[i] == A[i - e.p - 1 + q] && now[i] == cells[i - e.p - 1 + q];
      }
    }
  }

  lemma StillValid(A: seq<Block>, p: nat, q: nat, b: Block)
    requires Valid(RDL, A) && Fits(RDL, b) && p <= q <= |A|
    ensures Valid(RDL, A[..p] + [b] + A[q..])
  {
  }

  lemma MiddleReplaced(A: seq<Block>, p: nat, q: nat, b: Block)
    requires p <= q <= |A| && Src(A[p..q]) == Source(b) && Cost(A[p..q]) == 0
    ensures var B := A[..p] + [b] + A[q..];
            Src(B) == Src(A) && Cost(B) == Cost(A) + Price(b)
  {
    hide *;
    assert A == A[..p] + A[p..q] + A[q..];
    Joined(A[..p] + A[p..q], A[q..]);
    Joined(A[..p], A[p..q]);
    Joined(A[..p] + [b], A[q..]);
    Joined(A[..p], [b]);
    Single(b);
  }

  /** As many edits as there are, or fewer, are the cost of an alignment. */
  lemma {:induction false} EditsAlign(A: seq<Block>, cells: seq<Cell>, es: seq<Edit>, t: seq<Elem>)
    returns (B: seq<Block>)
    requires Describes(A, cells) && Valid(RDL, A) && Edits(cells, es, t)
    ensures Aligns(RDL, B, Src(A), t) && Cost(B) <= Cost(A) + |es|
    decreases |es|
  {
    hide Describes, Src, Tgt, Cost, CanEdit, Edited, Text;
    if es == [] {
      B := A;
      DescribedText(A, cells);
    } else {
      B := EditDescribed(A, cells, es[0]);
      B := EditsAlign(B, Edited(cells, es[0]), es[1..], t);
    }
  }

  // ---------- From alignments to edits ----------

  lemma {:induction false} TextJoined(c: seq<Cell>, d: seq<Cell>)
    ensures Text(c + d) == Text(c) + Text(d)
    decreases |d|
  {
    if d == [] {
      assert c + d == c;
    } else {
      hide Shown;
      TextJoined(c, d[..|d| - 1]);
      assert (c + d)[..|c + d| - 1] == c + d[..|d| - 1];
    }
  }

  lemma StartJoined(s: seq<Elem>, t: seq<Elem>)
    ensures Start(s + t) == Start(s) + Start(t)
  {
  }

  /** The edit that a block stands for, where its source begins. */
  function EditOf(p: nat, b: Block): Edit {
    match b
    case Del(_) => Delete(p)
    case Ins(y) => Insert(p, y)
    case Pair(_, y) => Substitute(p, y)
    case Cross(_, _, _, _) => Transpose(p)
  }

  lemma BlockEdited(pre: seq<Cell>, b: Block, done: seq<Cell>)
    requires Fits(RDL, b)
    ensures var cells := pre + Start(Source(b)) + done;
            && CanEdit(cells, EditOf(|pre|, b))
            && Edited(cells, EditOf(|pre|, b)) == pre + ([Left(Target(b))] + done)
  {
    var cells := pre + Start(Source(b)) + done;
    assert Width(EditOf(|pre|, b)) == |Source(b)|;
    assert cells[..|pre|] == pre && cells[|pre| + |Source(b)|..] == done;
    assert Outcome(cells, EditOf(|pre|, b)) == Target(b);
  }

  lemma EditFirst(cells: seq<Cell>, e: Edit, es: seq<Edit>, t: seq<Elem>)
    requires CanEdit(cells, e) && Edits(Edited(cells, e), es, t)
    ensures Edits(cells, [e] + es, t)
  {
    assert ([e] + es)[1..] == es;
  }

  lemma CellsJoined(pre: seq<Cell>, mid: seq<Cell>, done: seq<Cell>)
    ensures pre + mid + done == pre + (mid + done)
  {
  }

  /** An alignment is carried out from its end, by as many edits as it costs. */
  lemma {:induction false} AlignmentEdits(A: seq<Block>, done: seq<Cell>) returns (es: seq<Edit>)
    requires Valid(RDL, A)
    ensures Edits(Start(Src(A)) + done, es, Tgt(A) + Text(done)) && |es| == Cost(A)
    decreases |A|
  {
    es := [];
    if A == [] {
      assert Start([]) + done == done && [] + Text(done) == Text(done);
    } else {
      hide *;
      var init, b := Last(RDL, A);
      StartJoined(Src(init), Source(b));
      var cell := if b.Pair? && b.x == b.y then Untouched(b.x) else Left(Target(b));
      TextJoined([cell], done);
      OneCell(b, cell);
      es := AlignmentEdits(init, [cell] + done);
      Join3(Tgt(init), Target(b), Text(done));
      CellsJoined(Start(Src(init)), Start(Source(b)), done);
      if !cell.Untouched? {
        BlockEdited(Start(Src(init)), b, done);
        EditFirst(Start(Src(A)) + done, EditOf(|Start(Src(init))|, b), es, Tgt(A) + Text(done));
        es := [EditOf(|Start(Src(init))|, b)] + es;
      }
    }
  }

  lemma OneCell(b: Block, cell: Cell)
    requires cell == if b.Pair? && b.x == b.y then Untouched(b.x) else Left(Target(b))
    ensures Text([cell]) == Target(b)
    ensures cell.Untouched? ==> Start(Source(b)) == [cell] && Price(b) == 0
    ensures !cell.Untouched? && Fits(RDL, b) ==> Price(b) == 1
  {
    assert [cell][..0] == [];
  }

  /** The restricted distance is the least number of edits, of which no two touch the same substring. */
  lemma DistanceIsFewestEdits(a: seq<Elem>, b: seq<Elem>)
    ensures forall es | Edits(Start(a), es, b) :: Distance(RDL, a, b) <= |es|
    ensures exists es :: Edits(Start(a), es, b) && |es| == Distance(RDL, a, b)
  {
    hide Edits, Aligns;
    DistanceIsCheapestAlignment(RDL, a, b);
    forall es | Edits(Start(a), es, b)
      ensures Distance(RDL, a, b) <= |es|
    {
      var A := StartDescribed(a);
      var B := EditsAlign(A, Start(a), es, b);
    }
    var A :| Aligns(RDL, A, a, b) && Cost(A) == Distance(RDL, a, b);
    CarriedOut(A, a, b);
  }

  lemma CarriedOut(A: seq<Block>, a: seq<Elem>, b: seq<Elem>)
    requires Aligns(RDL, A, a, b)
    ensures exists es :: Edits(Start(a), es, b) && |es| == Cost(A)
  {
    var es := AlignmentEdits(A, []);
    assert Start(a) + [] == Start(a) && b + Text([]) == b;
  }
}
