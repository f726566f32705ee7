/** Two readings of "distance between two strings", and the theorem that they agree.

An edit rewrites a string in one place: it deletes, inserts or substitutes one element, or
transposes two neighbours.  A rewriting is any sequence of edits, overlapping ones included.

An alignment cuts source and target into matching blocks, from left to right: an element
deleted, inserted, or paired, or two elements of the source that cross over with everything
between them deleted and replaced.

Theorem (Wagner and Lowrance): a cheapest alignment costs as much as a shortest rewriting. */
module Alignment {
  import opened Basics

  type Elem = x: int | -128 <= x < 128

  datatype Measure = LCS | LEV | RDL | DL

  // ---------- Edits ----------

  datatype Edit =
    | Delete(p: nat)
    | Insert(p: nat, c: Elem)
    | Substitute(p: nat, c: Elem)
    | Transpose(p: nat)

  /** The edits that a measure counts; those of RDL must not overlap and have a module of their own. */
  predicate Permits(m: Measure, e: Edit) {
    match e
    case Delete(_) => m != RDL
    case Insert(_, _) => m != RDL
    case Substitute(_, _) => m == LEV || m == DL
    case Transpose(_) => m == DL
  }

  predicate Applies(s: seq<Elem>, e: Edit) {
    match e
    case Delete(p) => p < |s|
    case Insert(p, _) => p <= |s|
    case Substitute(p, _) => p < |s|
    case Transpose(p) => p + 1 < |s|
  }

  function Apply(s: seq<Elem>, e: Edit): seq<Elem>
    requires Applies(s, e)
  {
    match e
    case Delete(p) => s[..p] + s[p + 1..]
    case Insert(p, c) => s[..p] + [c] + s[p..]
    case Substitute(p, c) => s[p := c]
    case Transpose(p) => s[..p] + [s[p + 1], s[p]] + s[p + 2..]
  }

  /** The edits es, done one after the other, turn s into t. */
  ghost predicate Rewrites(m: Measure, s: seq<Elem>, es: seq<Edit>, t: seq<Elem>)
    decreases |es|
  {
    if es == [] then s == t
    else Permits(m, es[0]) && Applies(s, es[0]) && Rewrites(m, Apply(s, es[0]), es[1..], t)
  }

  lemma {:induction false} RewritesAppend(m: Measure, s: seq<Elem>, es: seq<Edit>, t: seq<Elem>, fs: seq<Edit>,
                                          u: seq<Elem>)
    requires Rewrites(m, s, es, t) && Rewrites(m, t, fs, u)
    ensures Rewrites(m, s, es + fs, u)
    decreases |es|
  {
    hide Permits, Applies, Apply;
    if es == [] {
      assert es + fs == fs;
    } else {
      assert (es + fs)[1..] == es[1..] + fs;
      RewritesAppend(m, Apply(s, es[0]), es[1..], t, fs, u);
    }
  }

  /** The edit that takes an edit of s back. */
  function Inverse(s: seq<Elem>, e: Edit): (r: Edit)
    requires Applies(s, e)
    ensures Applies(Apply(s, e), r) && Apply(Apply(s, e), r) == s
    ensures forall m :: Permits(m, e) ==> Permits(m, r)
  {
    match e
    case Delete(p) => Insert(p, s[p])
    case Insert(p, _) => Delete(p)
    case Substitute(p, _) => Substitute(p, s[p])
    case Transpose(p) => Transpose(p)
  }

  // ---------- Alignments ----------

  datatype Block =
    | Del(x: Elem)
    | Ins(y: Elem)
    | Pair(x: Elem, y: Elem)
    | Cross(x: Elem, dels: seq<Elem>, y: Elem, inss: seq<Elem>)

  function Source(b: Block): seq<Elem> {
    match b
    case Del(x) => [x]
    case Ins(_) => []
    case Pair(x, _) => [x]
    case Cross(x, dels, y, _) => [x] + dels + [y]
  }

  function Target(b: Block): seq<Elem> {
    match b
    case Del(_) => []
    case Ins(y) => [y]
    case Pair(_, y) => [y]
    case Cross(x, _, y, inss) => [y] + inss + [x]
  }

  function Price(b: Block): nat {
    match b
    case Del(_) => 1
    case Ins(_) => 1
    case Pair(x, y) => if x == y then 0 else 1
    case Cross(_, dels, _, inss) => |dels| + 1 + |inss|
  }

  predicate Fits(m: Measure, b: Block) {
    match b
    case Del(_) => true
    case Ins(_) => true
    case Pair(x, y) => m == LCS ==> x == y
    case Cross(_, dels, _, inss) => m == DL || (m == RDL && dels == [] && inss == [])
  }

  ghost function Src(A: seq<Block>): seq<Elem> {
    if A == [] then [] else Src(A[..|A| - 1]) + Source(A[|A| - 1])
  }

  ghost function Tgt(A: seq<Block>): seq<Elem> {
    if A == [] then [] else Tgt(A[..|A| - 1]) + Target(A[|A| - 1])
  }

  ghost function Cost(A: seq<Block>): nat {
    if A == [] then 0 else Cost(A[..|A| - 1]) + Price(A[|A| - 1])
  }

  ghost predicate Valid(m: Measure, A: seq<Block>) {
    forall i | 0 <= i < |A| :: Fits(m, A[i])
  }

  /** A is an alignment of s with t. */
  ghost predicate Aligns(m: Measure, A: seq<Block>, s: seq<Elem>, t: seq<Elem>) {
    Valid(m, A) && Src(A) == s && Tgt(A) == t
  }

  lemma Last(m: Measure, A: seq<Block>) returns (init: seq<Block>, b: Block)
    requires A != [] && Valid(m, A)
    ensures A == init + [b] && Valid(m, init) && Fits(m, b)
    ensures Src(A) == Src(init) + Source(b) && Tgt(A) == Tgt(init) + Target(b) && Cost(A) == Cost(init) + Price(b)
  {
    init, b := A[..|A| - 1], A[|A| - 1];
  }

  lemma Add(m: Measure, A: seq<Block>, b: Block) returns (B: seq<Block>)
    requires Valid(m, A) && Fits(m, b)
    ensures B == A + [b] && Valid(m, B)
    ensures Src(B) == Src(A) + Source(b) && Tgt(B) == Tgt(A) + Target(b) && Cost(B) == Cost(A) + Price(b)
  {
    B := A + [b];
    assert B[..|B| - 1] == A;
  }

  lemma AndNothing<T>(s: seq<T>)
    ensures s + [] == s
  {
  }

  lemma InitLast<T>(s: seq<T>)
    requires s != []
    ensures s[..|s| - 1] + [s[|s| - 1]] == s
  {
  }

  lemma OneBlock(x: Elem)
    ensures forall m :: Fits(m, Del(x)) && Fits(m, Ins(x))
    ensures Source(Del(x)) == [x] && Target(Del(x)) == [] && Price(Del(x)) == 1
    ensures Source(Ins(x)) == [] && Target(Ins(x)) == [x] && Price(Ins(x)) == 1
  {
  }

  lemma {:induction false} AddDels(m: Measure, A: seq<Block>, s: seq<Elem>) returns (B: seq<Block>)
    requires Valid(m, A)
    ensures Valid(m, B) && Src(B) == Src(A) + s && Tgt(B) == Tgt(A) && Cost(B) == Cost(A) + |s|
    decreases |s|
  {
    hide *;
    B := A;
    if s == [] {
      AndNothing(Src(A));
    } else {
      B := AddDels(m, A, s[..|s| - 1]);
      B := Add(m, B, Del(s[|s| - 1]));
      OneBlock(s[|s| - 1]);
      InitLast(s);
      Regroup(Src(A), s[..|s| - 1], [s[|s| - 1]]);
      AndNothing(Tgt(A));
    }
  }

  lemma {:induction false} AddInss(m: Measure, A: seq<Block>, s: seq<Elem>) returns (B: seq<Block>)
    requires Valid(m, A)
    ensures Valid(m, B) && Src(B) == Src(A) && Tgt(B) == Tgt(A) + s && Cost(B) == Cost(A) + |s|
    decreases |s|
  {
    hide *;
    B := A;
    if s == [] {
      AndNothing(Tgt(A));
    } else {
      B := AddInss(m, A, s[..|s| - 1]);
      B := Add(m, B, Ins(s[|s| - 1]));
      OneBlock(s[|s| - 1]);
      InitLast(s);
      Regroup(Tgt(A), s[..|s| - 1], [s[|s| - 1]]);
      AndNothing(Src(A));
    }
  }

  lemma {:induction false} Identity(m: Measure, s: seq<Elem>) returns (A: seq<Block>)
    ensures Aligns(m, A, s, s) && Cost(A) == 0
    decreases |s|
  {
    A := [];
    if s != [] {
      A := Identity(m, s[..|s| - 1]);
      A := Add(m, A, Pair(s[|s| - 1], s[|s| - 1]));
      assert s[..|s| - 1] + [s[|s| - 1]] == s;
    }
  }

  lemma Join3(a: seq<Elem>, b: seq<Elem>, c: seq<Elem>)
    ensures a + b + c == a + (b + c)
  {
  }

  // ---------- From alignments to rewritings ----------

  lemma {:induction false} DeleteRun(m: Measure, pre: seq<Elem>, dels: seq<Elem>,
                                     post: seq<Elem>) returns (es: seq<Edit>)
    requires m != RDL
    ensures Rewrites(m, pre + dels + post, es, pre + post) && |es| == |dels|
    decreases |dels|
  {
    var s := pre + dels + post;
    es := [];
    if dels == [] {
      assert s == pre + post;
    } else {
      var e := Delete(|pre|);
      assert Apply(s, e) == pre + dels[1..] + post;
      es := DeleteRun(m, pre, dels[1..], post);
      es := [e] + es;
    }
  }

  lemma FirstInserted(pre: seq<Elem>, inss: seq<Elem>, post: seq<Elem>)
    requires inss != []
    ensures Applies(pre + post, Insert(|pre|, inss[0]))
    ensures Apply(pre + post, Insert(|pre|, inss[0])) == (pre + [inss[0]]) + post
    ensures pre + [inss[0]] + inss[1..] + post == pre + inss + post
  {
  }

  lemma {:induction false} InsertRun(m: Measure, pre: seq<Elem>, inss: seq<Elem>,
                                     post: seq<Elem>) returns (es: seq<Edit>)
    requires m != RDL
    ensures Rewrites(m, pre + post, es, pre + inss + post) && |es| == |inss|
    decreases |inss|
  {
    es := [];
    if inss == [] {
      assert pre + post == pre + inss + post;
    } else {
      var e := Insert(|pre|, inss[0]);
      FirstInserted(pre, inss, post);
      es := InsertRun(m, pre + [inss[0]], inss[1..], post);
      assert ([e] + es)[1..] == es;
      es := [e] + es;
    }
  }

  lemma OneEdit(m: Measure, s: seq<Elem>, e: Edit)
    requires Permits(m, e) && Applies(s, e)
    ensures Rewrites(m, s, [e], Apply(s, e))
  {
    assert Rewrites(m, Apply(s, e), [e][1..], Apply(s, e));
  }

  lemma BlockRewrite(m: Measure, pre: seq<Elem>, b: Block, post: seq<Elem>) returns (es: seq<Edit>)
    requires m != RDL && Fits(m, b)
    ensures Rewrites(m, pre + Source(b) + post, es, pre + Target(b) + post) && |es| == Price(b)
  {
    var s, t := pre + Source(b) + post, pre + Target(b) + post;
    match b
    case Del(x) =>
      es := [Delete(|pre|)];
      assert Apply(s, es[0]) == t;
      OneEdit(m, s, es[0]);
    case Ins(y) =>
      es := [Insert(|pre|, y)];
      assert Apply(s, es[0]) == t;
      OneEdit(m, s, es[0]);
    case Pair(x, y) =>
      es := if x == y then [] else [Substitute(|pre|, y)];
      if x != y {
        assert Apply(s, es[0]) == t;
        OneEdit(m, s, es[0]);
      }
    case Cross(x, dels, y, inss) =>
      es := CrossRewrite(pre, x, dels, y, inss, post);
  }

  lemma CrossRewrite(pre: seq<Elem>, x: Elem, dels: seq<Elem>, y: Elem, inss: seq<Elem>, post: seq<Elem>)
    returns (es: seq<Edit>)
    ensures var b := Cross(x, dels, y, inss);
            Rewrites(DL, pre + Source(b) + post, es, pre + Target(b) + post) && |es| == Price(b)
  {
    hide Rewrites;
    var b := Cross(x, dels, y, inss);
    var ds := DeleteRun(DL, pre + [x], dels, [y] + post);
    assert (pre + [x]) + dels + ([y] + post) == pre + Source(b) + post;
    var mid := (pre + [x]) + ([y] + post);
    var e := Transpose(|pre|);
    OneEdit(DL, mid, e);
    assert Apply(mid, e) == (pre + [y]) + ([x] + post);
    var ins := InsertRun(DL, pre + [y], inss, [x] + post);
    assert (pre + [y]) + inss + ([x] + post) == pre + Target(b) + post;
    RewritesAppend(DL, pre + Source(b) + post, ds, mid, [e], Apply(mid, e));
    es := ds + [e] + ins;
    RewritesAppend(DL, pre + Source(b) + post, ds + [e], Apply(mid, e), ins, pre + Target(b) + post);
  }

  /** Every alignment can be carried out as a rewriting of the same length. */
  lemma {:induction false} AlignmentRewrites(m: Measure, A: seq<Block>, z: seq<Elem>) returns (es: seq<Edit>)
    requires m != RDL && Valid(m, A)
    ensures Rewrites(m, Src(A) + z, es, Tgt(A) + z) && |es| == Cost(A)
    decreases |A|
  {
    es := [];
    if A != [] {
      hide Rewrites, Source, Target, Price, Fits, Src, Tgt, Cost;
      var init, b := Last(m, A);
      var fs := BlockRewrite(m, Src(init), b, z);
      var gs := AlignmentRewrites(m, init, Target(b) + z);
      Join3(Src(init), Target(b), z);
      Join3(Tgt(init), Target(b), z);
      RewritesAppend(m, Src(A) + z, fs, Src(init) + (Target(b) + z), gs, Tgt(init) + (Target(b) + z));
      es := fs + gs;
    }
  }
}
