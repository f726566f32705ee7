/** An edit of the source changes the cost of a cheapest alignment by at most one.  Hence no
rewriting is shorter than a cheapest alignment (Trace Theorem of Wagner and Lowrance). */
module WagnerLowrance {
  import opened Alignment

  // ---------- Edits and concatenation ----------

  /** The edit e, n places further on. */
  function Shift(e: Edit, n: nat): Edit {
    match e
    case Delete(p) => Delete(n + p)
    case Insert(p, c) => Insert(n + p, c)
    case Substitute(p, c) => Substitute(n + p, c)
    case Transpose(p) => Transpose(n + p)
  }

  /** Where the part of the string that e looks at ends. */
  function End(e: Edit): nat {
    match e
    case Delete(p) => p + 1
    case Insert(p, _) => p
    case Substitute(p, _) => p + 1
    case Transpose(p) => p + 2
  }

  /** What e puts in the place of what it looks at. */
  function Middle(s: seq<Elem>, e: Edit): seq<Elem>
    requires Applies(s, e)
  {
    match e
    case Delete(_) => []
    case Insert(_, c) => [c]
    case Substitute(_, c) => [c]
    case Transpose(p) => [s[p + 1], s[p]]
  }

  lemma ApplyParts(s: seq<Elem>, e: Edit)
    requires Applies(s, e)
    ensures End(e) <= |s| && Apply(s, e) == s[..e.p] + Middle(s, e) + s[End(e)..]
  {
  }

  lemma EditLeft(s: seq<Elem>, t: seq<Elem>, e: Edit)
    requires Applies(s, e)
    ensures Applies(s + t, e) && Apply(s + t, e) == Apply(s, e) + t
  {
    hide Apply, End;
    ApplyParts(s, e);
    ApplyParts(s + t, e);
    assert (s + t)[..e.p] == s[..e.p] && (s + t)[End(e)..] == s[End(e)..] + t;
    Join3(s[..e.p] + Middle(s, e), s[End(e)..], t);
  }

  lemma EditRight(s: seq<Elem>, t: seq<Elem>, e: Edit)
    requires Applies(t, e)
    ensures Applies(s + t, Shift(e, |s|)) && Apply(s + t, Shift(e, |s|)) == s + Apply(t, e)
  {
    hide Apply;
    var e' := Shift(e, |s|);
    ApplyParts(t, e);
    ApplyParts(s + t, e');
    assert (s + t)[..e'.p] == s + t[..e.p] && (s + t)[End(e')..] == t[End(e)..];
    Join3(s, t[..e.p], Middle(t, e));
    Join3(s, t[..e.p] + Middle(t, e), t[End(e)..]);
  }

  // ---------- An edit inside one block ----------

  /** B continues A by a source s and the target of b, for at most the price of b and one. */
  ghost predicate Replaces(m: Measure, A: seq<Block>, b: Block, s: seq<Elem>, B: seq<Block>) {
    && Valid(m, B)
    && Src(B) == Src(A) + s
    && Tgt(B) == Tgt(A) + Target(b)
    && Cost(B) <= Cost(A) + Price(b) + 1
  }

  lemma AdaptBlock(m: Measure, A: seq<Block>, b: Block, e: Edit) returns (B: seq<Block>)
    requires Valid(m, A) && Fits(m, b) && Permits(m, e) && Applies(Source(b), e)
    requires e.Insert? ==> 0 < e.p < |Source(b)|
    ensures Replaces(m, A, b, Apply(Source(b), e), B)
  {
    hide Src, Tgt, Cost, Replaces;
    if b.Cross? {
      match e
      case Insert(p, c) => B := InsertInCross(A, b, p, c);
      case Delete(p) => B := DeleteInCross(A, b, p);
      case Substitute(p, c) => B := SubstituteInCross(A, b, p, c);
      case Transpose(p) => B := TransposeInCross(A, b, p);
    } else {
      B := EditSingle(m, A, b, e);
    }
  }

  lemma EditSingle(m: Measure, A: seq<Block>, b: Block, e: Edit) returns (B: seq<Block>)
    requires Valid(m, A) && Fits(m, b) && Permits(m, e) && Applies(Source(b), e)
    requires b.Del? || b.Pair?
    requires e.Delete? || e.Substitute?
    ensures Replaces(m, A, b, Apply(Source(b), e), B)
  {
    hide Src, Tgt, Cost;
    if e.Delete? {
      B := A;
      if b.Pair? {
        B := Add(m, A, Ins(b.y));
      }
    } else if b.Pair? {
      B := Add(m, A, Pair(e.c, b.y));
    } else {
      B := Add(m, A, Del(e.c));
    }
  }

  lemma InsertInCross(A: seq<Block>, b: Block, p: nat, c: Elem) returns (B: seq<Block>)
    requires Valid(DL, A) && b.Cross? && 0 < p < |Source(b)|
    ensures Replaces(DL, A, b, Apply(Source(b), Insert(p, c)), B)
  {
    hide Src, Tgt, Cost;
    var Cross(x, dels, y, inss) := b;
    var dels' := Apply(dels, Insert(p - 1, c));
    B := Add(DL, A, Cross(x, dels', y, inss));
    assert Apply(Source(b), Insert(p, c)) == [x] + dels' + [y];
  }

  /** Instead of crossing, keep the second element. */
  lemma KeepSecond(A: seq<Block>, b: Block, s: seq<Elem>) returns (B: seq<Block>)
    requires Valid(DL, A) && b.Cross? && |s| <= |b.dels| + 1
    ensures Replaces(DL, A, b, s + [b.y], B)
  {
    hide Src, Tgt, Cost;
    var Cross(x, _, y, inss) := b;
    B := AddDels(DL, A, s);
    B := Add(DL, B, Pair(y, y));
    B := AddInss(DL, B, inss);
    B := Add(DL, B, Ins(x));
  }

  /** Instead of crossing, keep the first element. */
  lemma KeepFirst(A: seq<Block>, b: Block, s: seq<Elem>) returns (B: seq<Block>)
    requires Valid(DL, A) && b.Cross? && |s| <= |b.dels| + 1
    ensures Replaces(DL, A, b, [b.x] + s, B)
    ensures Cost(B) == Cost(A) + |b.inss| + |s| + 1
  {
    hide Src, Tgt, Cost;
    var Cross(x, _, y, inss) := b;
    B := Add(DL, A, Ins(y));
    B := AddInss(DL, B, inss);
    B := Add(DL, B, Pair(x, x));
    B := AddDels(DL, B, s);
  }

  /** The crossing stays, with other elements deleted. */
  lemma KeepCross(A: seq<Block>, b: Block, dels: seq<Elem>) returns (B: seq<Block>)
    requires Valid(DL, A) && b.Cross? && |dels| <= |b.dels|
    ensures Replaces(DL, A, b, [b.x] + dels + [b.y], B)
  {
    hide Src, Tgt, Cost;
    B := Add(DL, A, Cross(b.x, dels, b.y, b.inss));
  }

  lemma DeleteInCross(A: seq<Block>, b: Block, p: nat) returns (B: seq<Block>)
    requires Valid(DL, A) && b.Cross? && p < |Source(b)|
    ensures Replaces(DL, A, b, Apply(Source(b), Delete(p)), B)
  {
    hide Valid, Replaces, Apply;
    var Cross(x, dels, y, inss) := b;
    DeleteSource(x, dels, y, p);
    if p == 0 {
      B := KeepSecond(A, b, dels);
    } else if p == |dels| + 1 {
      B := KeepFirst(A, b, dels);
    } else {
      B := KeepCross(A, b, dels[..p - 1] + dels[p..]);
    }
  }

  lemma DeleteSource(x: Elem, dels: seq<Elem>, y: Elem, p: nat)
    requires p < |dels| + 2
    ensures Apply([x] + dels + [y], Delete(p)) ==
            if p == 0 then dels + [y]
            else if p == |dels| + 1 then [x] + dels
            else [x] + (dels[..p - 1] + dels[p..]) + [y]
  {
    var s := [x] + dels + [y];
    if 0 < p <= |dels| {
      assert s[..p] == [x] + dels[..p - 1] && s[p + 1..] == dels[p..] + [y];
    }
  }

  lemma SubstituteInCross(A: seq<Block>, b: Block, p: nat, c: Elem) returns (B: seq<Block>)
    requires Valid(DL, A) && b.Cross? && p < |Source(b)|
    ensures Replaces(DL, A, b, Apply(Source(b), Substitute(p, c)), B)
  {
    hide Valid, Replaces;
    var Cross(x, dels, y, inss) := b;
    if p == 0 {
      B := KeepSecond(A, b, [c] + dels);
      assert Apply(Source(b), Substitute(p, c)) == [c] + dels + [y];
    } else if p == |dels| + 1 {
      B := KeepFirst(A, b, dels + [c]);
      assert Apply(Source(b), Substitute(p, c)) == [x] + (dels + [c]);
    } else {
      B := KeepCross(A, b, dels[p - 1 := c]);
      assert Apply(Source(b), Substitute(p, c)) == [x] + dels[p - 1 := c] + [y];
    }
  }

  lemma TransposeInCross(A: seq<Block>, b: Block, p: nat) returns (B: seq<Block>)
    requires Valid(DL, A) && b.Cross? && p + 1 < |Source(b)|
    ensures Replaces(DL, A, b, Apply(Source(b), Transpose(p)), B)
  {
    hide Valid, Replaces, Apply;
    var Cross(x, dels, y, inss) := b;
    TransposeSource(x, dels, y, p);
    if dels == [] {
      B := KeepBoth(A, b);
    } else if p == 0 {
      B := DeleteThenCross(A, b);
    } else if p == |dels| {
      B := CrossThenDelete(A, b);
    } else {
      B := KeepCross(A, b, Apply(dels, Transpose(p - 1)));
    }
  }

  lemma TransposeSource(x: Elem, dels: seq<Elem>, y: Elem, p: nat)
    requires p <= |dels|
    ensures Apply([x] + dels + [y], Transpose(p)) ==
            if dels == [] then [y, x]
            else if p == 0 then [dels[0]] + ([x] + dels[1..] + [y])
            else if p == |dels| then [x] + dels[..|dels| - 1] + [y] + [dels[|dels| - 1]]
            else [x] + Apply(dels, Transpose(p - 1)) + [y]
    ensures 0 < p < |dels| ==> |Apply(dels, Transpose(p - 1))| == |dels|
  {
    var s, k := [x] + dels + [y], |dels| - 1;
    if dels != [] {
      if p == |dels| {
        assert s[..p] == [x] + dels[..k] && s[p + 2..] == [];
        Join3([x] + dels[..k], [y], [dels[k]]);
      } else if p == 0 {
        assert s[2..] == dels[1..] + [y];
      } else {
        TransposeMiddle(x, dels, y, p);
      }
    }
  }

  lemma TransposeMiddle(x: Elem, dels: seq<Elem>, y: Elem, p: nat)
    requires 0 < p < |dels|
    ensures Apply([x] + dels + [y], Transpose(p)) == [x] + Apply(dels, Transpose(p - 1)) + [y]
  {
    EditLeft(dels, [y], Transpose(p - 1));
    EditRight([x], dels + [y], Transpose(p - 1));
    Join3([x], dels, [y]);
    Join3([x], Apply(dels, Transpose(p - 1)), [y]);
  }

  lemma KeepBoth(A: seq<Block>, b: Block) returns (B: seq<Block>)
    requires Valid(DL, A) && b.Cross?
    ensures Replaces(DL, A, b, [b.y, b.x], B)
  {
    hide Src, Tgt, Cost;
    B := Add(DL, A, Pair(b.y, b.y));
    B := AddInss(DL, B, b.inss);
    B := Add(DL, B, Pair(b.x, b.x));
  }

  lemma DeleteThenCross(A: seq<Block>, b: Block) returns (B: seq<Block>)
    requires Valid(DL, A) && b.Cross? && b.dels != []
    ensures Replaces(DL, A, b, [b.dels[0]] + ([b.x] + b.dels[1..] + [b.y]), B)
  {
    hide Src, Tgt, Cost;
    B := Add(DL, A, Del(b.dels[0]));
    B := Add(DL, B, Cross(b.x, b.dels[1..], b.y, b.inss));
  }

  lemma CrossThenDelete(A: seq<Block>, b: Block) returns (B: seq<Block>)
    requires Valid(DL, A) && b.Cross? && b.dels != []
    ensures Replaces(DL, A, b, [b.x] + b.dels[..|b.dels| - 1] + [b.y] + [b.dels[|b.dels| - 1]], B)
  {
    hide Src, Tgt, Cost;
    B := Add(DL, A, Cross(b.x, b.dels[..|b.dels| - 1], b.y, b.inss));
    B := Add(DL, B, Del(b.dels[|b.dels| - 1]));
  }

  // ---------- An edit across two blocks ----------

  lemma LastOf(m: Measure, A: seq<Block>) returns (init: seq<Block>, b: Block)
    requires Valid(m, A) && Src(A) != []
    ensures A == init + [b] && Valid(m, init) && Fits(m, b)
    ensures Src(A) == Src(init) + Source(b) && Tgt(A) == Tgt(init) + Target(b) && Cost(A) == Cost(init) + Price(b)
  {
    init, b := Last(m, A);
  }

  /** The last block that consumes part of the source, and what is inserted after it. */
  lemma LastConsumer(A: seq<Block>) returns (C: seq<Block>, b: Block, w: seq<Elem>)
    requires Valid(DL, A) && Src(A) != []
    ensures Valid(DL, C) && Source(b) != []
    ensures Src(A) == Src(C) + Source(b) && Tgt(A) == Tgt(C) + Target(b) + w
    ensures Cost(A) == Cost(C) + Price(b) + |w|
    decreases |A|
  {
    hide Src, Tgt, Cost;
    var init, last := LastOf(DL, A);
    if last.Ins? {
      C, b, w := LastConsumer(init);
      Join3(Tgt(C) + Target(b), w, [last.y]);
      w := w + [last.y];
    } else {
      C, b, w := init, last, [];
    }
  }

  ghost function Swapped(s1: seq<Elem>, s2: seq<Elem>): seq<Elem>
    requires s1 != [] && s2 != []
  {
    s1[..|s1| - 1] + [s2[0]] + [s1[|s1| - 1]] + s2[1..]
  }

  /** Blocks b1 and b2 with w inserted between them; the last element of b1's source and the
      first of b2's are exchanged. */
  ghost predicate Straddled(C: seq<Block>, b1: Block, w: seq<Elem>, b2: Block, B: seq<Block>)
    requires Source(b1) != [] && Source(b2) != []
  {
    && Valid(DL, B)
    && Src(B) == Src(C) + Swapped(Source(b1), Source(b2))
    && Tgt(B) == Tgt(C) + Target(b1) + w + Target(b2)
    && Cost(B) <= Cost(C) + Price(b1) + |w| + Price(b2) + 1
  }

  lemma Straddle(C: seq<Block>, b1: Block, w: seq<Elem>, b2: Block) returns (B: seq<Block>)
    requires Valid(DL, C) && Source(b1) != [] && Source(b2) != []
    ensures Straddled(C, b1, w, b2, B)
  {
    hide Straddled;
    if b1.Del? {
      B := AfterDel(C, b1, w, b2);
    } else if b2.Del? {
      B := BeforeDel(C, b1, w, b2);
    } else if b1.Pair? && b2.Pair? {
      B := PairPair(C, b1, w, b2);
    } else if b1.Pair? {
      B := PairCross(C, b1, w, b2);
    } else if b2.Pair? {
      B := CrossPair(C, b1, w, b2);
    } else {
      B := CrossCross(C, b1, w, b2);
    }
  }

  lemma AfterDel(C: seq<Block>, b1: Block, w: seq<Elem>, b2: Block) returns (B: seq<Block>)
    requires Valid(DL, C) && b1.Del? && Source(b2) != []
    ensures Straddled(C, b1, w, b2, B)
  {
    hide Src, Tgt, Cost;
    var v := b1.x;
    if b2.Del? {
      B := AddDels(DL, C, [b2.x, v]);
      B := AddInss(DL, B, w);
      assert Swapped([v], [b2.x]) == [b2.x, v];
    } else if b2.Pair? {
      B := AddInss(DL, C, w);
      B := Add(DL, B, b2);
      B := Add(DL, B, b1);
      assert Swapped([v], [b2.x]) == [b2.x] + [v];
    } else {
      B := DelCross(C, b1, w, b2);
    }
  }

  lemma DelCross(C: seq<Block>, b1: Block, w: seq<Elem>, b2: Block) returns (B: seq<Block>)
    requires Valid(DL, C) && b1.Del? && b2.Cross?
    ensures Straddled(C, b1, w, b2, B)
  {
    hide Src, Tgt, Cost;
    var v := b1.x;
    B := AddInss(DL, C, w);
    B := Add(DL, B, Cross(b2.x, [v] + b2.dels, b2.y, b2.inss));
    assert Swapped([v], Source(b2)) == [b2.x] + ([v] + b2.dels) + [b2.y];
  }

  lemma BeforeDel(C: seq<Block>, b1: Block, w: seq<Elem>, b2: Block) returns (B: seq<Block>)
    requires Valid(DL, C) && (b1.Pair? || b1.Cross?) && b2.Del?
    ensures Straddled(C, b1, w, b2, B)
  {
    hide Src, Tgt, Cost;
    var u := b2.x;
    match b1
    case Pair(v, y) =>
      B := Add(DL, C, b2);
      B := Add(DL, B, b1);
      B := AddInss(DL, B, w);
      assert Swapped([v], [u]) == [u] + [v];
    case Cross(x, dels, v, inss) =>
      B := Add(DL, C, Cross(x, dels + [u], v, inss));
      B := AddInss(DL, B, w);
      assert Swapped(Source(b1), [u]) == [x] + (dels + [u]) + [v];
  }

  lemma PairPair(C: seq<Block>, b1: Block, w: seq<Elem>, b2: Block) returns (B: seq<Block>)
    requires Valid(DL, C) && b1.Pair? && b2.Pair?
    ensures Straddled(C, b1, w, b2, B)
  {
    hide Src, Tgt, Cost;
    var Pair(v, y1) := b1;
    var Pair(u, y2) := b2;
    assert Swapped([v], [u]) == [u, v] == [u] + [] + [v];
    if v == y1 && u == y2 {
      B := Add(DL, C, Cross(u, [], v, w));
    } else if v == y1 {
      B := Add(DL, C, Del(u));
      B := Add(DL, B, b1);
      B := AddInss(DL, B, w);
      B := Add(DL, B, Ins(y2));
    } else if u == y2 {
      B := Add(DL, C, Ins(y1));
      B := AddInss(DL, B, w);
      B := Add(DL, B, b2);
      B := Add(DL, B, Del(v));
    } else {
      B := Add(DL, C, Pair(u, y1));
      B := AddInss(DL, B, w);
      B := Add(DL, B, Pair(v, y2));
    }
  }

  lemma PairCross(C: seq<Block>, b1: Block, w: seq<Elem>, b2: Block) returns (B: seq<Block>)
    requires Valid(DL, C) && b1.Pair? && b2.Cross?
    ensures Straddled(C, b1, w, b2, B)
  {
    hide Src, Tgt, Cost;
    var Pair(v, y1) := b1;
    var Cross(u, dels, y, inss) := b2;
    B := Add(DL, C, Del(u));
    B := Add(DL, B, b1);
    B := AddInss(DL, B, w);
    B := AddDels(DL, B, dels);
    B := Add(DL, B, Pair(y, y));
    B := AddInss(DL, B, inss);
    B := Add(DL, B, Ins(u));
    assert Swapped([v], Source(b2)) == [u] + [v] + dels + [y];
  }

  lemma CrossPair(C: seq<Block>, b1: Block, w: seq<Elem>, b2: Block) returns (B: seq<Block>)
    requires Valid(DL, C) && b1.Cross? && b2.Pair?
    ensures Straddled(C, b1, w, b2, B)
  {
    hide Src, Tgt, Cost;
    B := KeepFirst(C, b1, b1.dels);
    B := AddInss(DL, B, w);
    B := Add(DL, B, b2);
    B := Add(DL, B, Del(b1.y));
    assert Swapped(Source(b1), [b2.x]) == [b1.x] + b1.dels + [b2.x] + [b1.y];
  }

  lemma CrossCross(C: seq<Block>, b1: Block, w: seq<Elem>, b2: Block) returns (B: seq<Block>)
    requires Valid(DL, C) && b1.Cross? && b2.Cross?
    ensures Straddled(C, b1, w, b2, B)
  {
    hide Src, Tgt, Cost, Swapped;
    B := KeepFirst(C, b1, b1.dels);
    B := AddInss(DL, B, w);
    B := Add(DL, B, Cross(b2.x, [b1.y] + b2.dels, b2.y, b2.inss));
    SwappedCross(b1, b2);
    Join3(Src(C), [b1.x] + b1.dels, [b2.x] + ([b1.y] + b2.dels) + [b2.y]);
  }

  lemma SwappedCross(b1: Block, b2: Block)
    requires b1.Cross? && b2.Cross?
    ensures Swapped(Source(b1), Source(b2)) == [b1.x] + b1.dels + ([b2.x] + ([b1.y] + b2.dels) + [b2.y])
  {
  }

  // ---------- The theorem ----------

  /** One edit of the source, at most one more in cost. */
  lemma {:induction false} Adapt(m: Measure, A: seq<Block>, e: Edit) returns (B: seq<Block>)
    requires Valid(m, A) && Permits(m, e) && Applies(Src(A), e)
    ensures Aligns(m, B, Apply(Src(A), e), Tgt(A)) && Cost(B) <= Cost(A) + 1
    decreases |A|
  {
    if e.Insert? && e.p == |Src(A)| {
      B := Add(m, A, Del(e.c));
      assert Apply(Src(A), e) == Src(A) + [e.c];
    } else {
      B := AdaptInside(m, A, e);
    }
  }

  lemma {:induction false} AdaptInside(m: Measure, A: seq<Block>, e: Edit) returns (B: seq<Block>)
    requires Valid(m, A) && Permits(m, e) && Applies(Src(A), e)
    requires e.Insert? ==> e.p < |Src(A)|
    ensures Aligns(m, B, Apply(Src(A), e), Tgt(A)) && Cost(B) <= Cost(A) + 1
    decreases |A|, 0
  {
    hide Src, Tgt, Cost, Apply, Source, Target;
    var init, b := LastOf(m, A);
    var n := |Src(init)|;
    if End(e) <= n {
      B := Adapt(m, init, e);
      EditLeft(Src(init), Source(b), e);
      B := Add(m, B, b);
    } else if e.p >= n {
      var e' := Back(e, n);
      B := AdaptBlock(m, init, b, e');
      EditRight(Src(init), Source(b), e');
    } else {
      B := AdaptAcross(init, b);
      SwapAcross(Src(init), Source(b));
    }
  }

  lemma SwapAcross(s: seq<Elem>, t: seq<Elem>)
    requires s != [] && t != []
    ensures Apply(s + t, Transpose(|s| - 1)) == Swapped(s, t)
  {
  }

  lemma Back(e: Edit, n: nat) returns (e': Edit)
    requires e.p >= n
    ensures e == Shift(e', n)
  {
    match e
    case Delete(p) => e' := Delete(p - n);
    case Insert(p, c) => e' := Insert(p - n, c);
    case Substitute(p, c) => e' := Substitute(p - n, c);
    case Transpose(p) => e' := Transpose(p - n);
  }

  /** Exchanging the last element of a source with the first of the next block. */
  lemma AdaptAcross(A: seq<Block>, b: Block) returns (B: seq<Block>)
    requires Valid(DL, A) && Src(A) != [] && Source(b) != []
    ensures Valid(DL, B) && Src(B) == Swapped(Src(A), Source(b)) && Tgt(B) == Tgt(A) + Target(b)
    ensures Cost(B) <= Cost(A) + Price(b) + 1
  {
    hide Src, Tgt, Cost, Source, Target;
    var C, b1, w := LastConsumer(A);
    B := Straddle(C, b1, w, b);
    SwappedTail(Src(C), Source(b1), Source(b));
  }

  lemma SwappedTail(s: seq<Elem>, s1: seq<Elem>, s2: seq<Elem>)
    requires s1 != [] && s2 != []
    ensures Swapped(s + s1, s2) == s + Swapped(s1, s2)
  {
  }

  /** For every rewriting there is an alignment that costs no more. */
  lemma {:induction false} RewritingAligns(m: Measure, s: seq<Elem>, es: seq<Edit>,
                                           t: seq<Elem>) returns (A: seq<Block>)
    requires Rewrites(m, s, es, t)
    ensures Aligns(m, A, s, t) && Cost(A) <= |es|
    decreases |es|
  {
    if es == [] {
      A := Identity(m, s);
    } else {
      hide Src, Tgt, Cost, Valid, Apply, Applies, Permits;
      var s' := Apply(s, es[0]);
      A := RewritingAligns(m, s', es[1..], t);
      A := Adapt(m, A, Inverse(s, es[0]));
    }
  }
}
