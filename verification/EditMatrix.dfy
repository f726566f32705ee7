/** The matrix that the edit distance algorithms fill in, and what its last entry means.

F(m, a, b, i, j) is the recurrence of the code: equal last elements are paired for free;
otherwise the cheapest of insertion, deletion, substitution and, where the measure has it,
one transposition is taken.  For RDL that is a transposition of neighbours; for DL the single
candidate pairs the latest earlier match of either element with the other. */
module EditMatrix {
  import opened Alignment
  import opened WagnerLowrance

  function Min2(p: nat, q: nat): nat {
    if p < q then p else q
  }

  function Min3(p: nat, q: nat, r: nat): nat {
    if p < q then (if p < r then p else r) else (if q < r then q else r)
  }

  /** The largest k <= n with s[k - 1] == c, or 0. */
  function LastMatch(s: seq<Elem>, n: nat, c: Elem): (k: nat)
    requires n <= |s|
    ensures k <= n && (k > 0 ==> s[k - 1] == c)
    ensures forall l | k <= l < n :: s[l] != c
  {
    if n == 0 then 0 else if s[n - 1] == c then n else LastMatch(s, n - 1, c)
  }

  function F(m: Measure, a: seq<Elem>, b: seq<Elem>, i: nat, j: nat): nat
    requires i <= |a| && j <= |b|
    decreases i + j
  {
    if i == 0 then j
    else if j == 0 then i
    else if a[i - 1] == b[j - 1] then F(m, a, b, i - 1, j - 1)
    else
      var ins := F(m, a, b, i, j - 1) + 1;
      var del := F(m, a, b, i - 1, j) + 1;
      if m == LCS then Min2(ins, del)
      else
        var best := Min3(ins, del, F(m, a, b, i - 1, j - 1) + 1);
        if m == RDL then
          if i > 1 && j > 1 && a[i - 2] == b[j - 1] && a[i - 1] == b[j - 2]
          then Min2(best, F(m, a, b, i - 2, j - 2) + 1) else best
        else if m == DL then
          var i1, j1 := LastMatch(a, i - 1, b[j - 1]), LastMatch(b, j - 1, a[i - 1]);
          if i1 > 0 && j1 > 0
          then Min2(best, F(m, a, b, i1 - 1, j1 - 1) + (i - i1 - 1) + 1 + (j - j1 - 1)) else best
        else best
  }

  ghost predicate HasTransposed(m: Measure, a: seq<Elem>, b: seq<Elem>, i: nat, j: nat)
    requires 0 < i <= |a| && 0 < j <= |b|
  {
    || (m == DL && LastMatch(a, i - 1, b[j - 1]) > 0 && LastMatch(b, j - 1, a[i - 1]) > 0)
    || (m == RDL && i > 1 && j > 1 && a[i - 2] == b[j - 1] && a[i - 1] == b[j - 2])
  }

  /** The cost of the one transposition that is considered for entry (i, j), if there is one. */
  ghost function Transposed(m: Measure, a: seq<Elem>, b: seq<Elem>, i: nat, j: nat): (r: nat)
    requires 0 < i <= |a| && 0 < j <= |b|
  {
    var i1, j1 := LastMatch(a, i - 1, b[j - 1]), LastMatch(b, j - 1, a[i - 1]);
    if !HasTransposed(m, a, b, i, j) then i + j
    else if m == DL then F(m, a, b, i1 - 1, j1 - 1) + (i - i1 - 1) + 1 + (j - j1 - 1)
    else F(m, a, b, i - 2, j - 2) + 1
  }

  /** An entry from its neighbours. */
  lemma Step(m: Measure, a: seq<Elem>, b: seq<Elem>, i: nat, j: nat)
    requires 0 < i <= |a| && 0 < j <= |b|
    requires F(m, a, b, i, j - 1) < i + j && F(m, a, b, i - 1, j) < i + j
    ensures a[i - 1] == b[j - 1] ==> F(m, a, b, i, j) == F(m, a, b, i - 1, j - 1)
    ensures var indel := Min2(F(m, a, b, i, j - 1) + 1, F(m, a, b, i - 1, j) + 1);
            && (a[i - 1] != b[j - 1] && m == LCS ==> F(m, a, b, i, j) == indel)
            && (a[i - 1] != b[j - 1] && m != LCS ==>
                  F(m, a, b, i, j) == Min2(Min2(indel, F(m, a, b, i - 1, j - 1) + 1), Transposed(m, a, b, i, j)))
  {
    Unfolded(m, a, b, i, j);
    MinFacts(F(m, a, b, i, j - 1) + 1, F(m, a, b, i - 1, j) + 1, F(m, a, b, i - 1, j - 1) + 1, i + j);
    NoneTransposed(m, a, b, i, j);
    hide F, LastMatch, Min2, Min3, Transposed, HasTransposed;
  }

  lemma MinFacts(x: nat, y: nat, z: nat, n: nat)
    requires x <= n
    ensures Min3(x, y, z) == Min2(Min2(x, y), z) == Min2(Min3(x, y, z), n)
  {
  }

  lemma NoneTransposed(m: Measure, a: seq<Elem>, b: seq<Elem>, i: nat, j: nat)
    requires 0 < i <= |a| && 0 < j <= |b|
    ensures !HasTransposed(m, a, b, i, j) ==> Transposed(m, a, b, i, j) == i + j
  {
    hide F, LastMatch;
  }

  /** One unfolding of F. */
  lemma Unfolded(m: Measure, a: seq<Elem>, b: seq<Elem>, i: nat, j: nat)
    requires 0 < i <= |a| && 0 < j <= |b|
    ensures a[i - 1] == b[j - 1] ==> F(m, a, b, i, j) == F(m, a, b, i - 1, j - 1)
    ensures var ins, del := F(m, a, b, i, j - 1) + 1, F(m, a, b, i - 1, j) + 1;
            var best := Min3(ins, del, F(m, a, b, i - 1, j - 1) + 1);
            && (a[i - 1] != b[j - 1] && m == LCS ==> F(m, a, b, i, j) == Min2(ins, del))
            && (a[i - 1] != b[j - 1] && m != LCS ==>
                  F(m, a, b, i, j) ==
                  if HasTransposed(m, a, b, i, j) then Min2(best, Transposed(m, a, b, i, j)) else best)
  {
    hide Min2, Min3, LastMatch;
  }

  lemma Border(m: Measure, a: seq<Elem>, b: seq<Elem>, i: nat, j: nat)
    requires i <= |a| && j <= |b|
    ensures i == 0 ==> F(m, a, b, i, j) == j
    ensures j == 0 ==> F(m, a, b, i, j) == i
  {
    hide LastMatch;
  }

  /** The distance that a measure gives to two strings. */
  function Distance(m: Measure, a: seq<Elem>, b: seq<Elem>): nat {
    F(m, a, b, |a|, |b|)
  }

  // ---------- Neighbouring entries ----------

  ghost predicate NearBy(m: Measure, a: seq<Elem>, b: seq<Elem>, i: nat, j: nat)
    requires i <= |a| && j <= |b|
  {
    var f := F(m, a, b, i, j);
    && f <= i + j
    && (i < |a| ==> F(m, a, b, i + 1, j) <= f + 1 && f <= F(m, a, b, i + 1, j) + 1)
    && (j < |b| ==> F(m, a, b, i, j + 1) <= f + 1 && f <= F(m, a, b, i, j + 1) + 1)
  }

  lemma {:induction false} Neighbours(m: Measure, a: seq<Elem>, b: seq<Elem>, i: nat, j: nat)
    requires i <= |a| && j <= |b|
    ensures NearBy(m, a, b, i, j)
    decreases i + j, 1
  {
    hide F;
    Small(m, a, b, i, j);
    if i < |a| {
      if j == 0 {
        Border(m, a, b, i, j);
        Border(m, a, b, i + 1, j);
      } else {
        NextRow(m, a, b, i, j);
      }
    }
    if j < |b| {
      if i == 0 {
        Border(m, a, b, i, j);
        Border(m, a, b, i, j + 1);
      } else {
        NextColumn(m, a, b, i, j);
      }
    }
  }

  lemma {:induction false} Small(m: Measure, a: seq<Elem>, b: seq<Elem>, i: nat, j: nat)
    requires i <= |a| && j <= |b|
    ensures F(m, a, b, i, j) <= i + j
    decreases i + j, 0
  {
    hide F;
    Border(m, a, b, i, j);
    if i > 0 {
      Neighbours(m, a, b, i - 1, j);
    }
  }

  lemma {:induction false} NextRow(m: Measure, a: seq<Elem>, b: seq<Elem>, i: nat, j: nat)
    requires i < |a| && 0 < j <= |b|
    requires F(m, a, b, i, j) <= i + j
    ensures F(m, a, b, i + 1, j) <= F(m, a, b, i, j) + 1
    ensures F(m, a, b, i, j) <= F(m, a, b, i + 1, j) + 1
    decreases i + j, 0
  {
    hide F, LastMatch;
    Neighbours(m, a, b, i, j - 1);
    Step(m, a, b, i + 1, j);
    if a[i] != b[j - 1] && m != LCS && Transposed(m, a, b, i + 1, j) < i + 1 + j {
      RowAfterTransposition(m, a, b, i, j);
    }
  }

  lemma {:induction false} RowAfterTransposition(m: Measure, a: seq<Elem>, b: seq<Elem>, i: nat, j: nat)
    requires i < |a| && 0 < j <= |b| && m != LCS
    requires Transposed(m, a, b, i + 1, j) < i + 1 + j
    ensures F(m, a, b, i, j) <= Transposed(m, a, b, i + 1, j)
    decreases i + j, 0, 0
  {
    hide LastMatch;
    if m == DL {
      hide F;
      var i1, j1 := LastMatch(a, i, b[j - 1]), LastMatch(b, j - 1, a[i]);
      Far(m, a, b, i1 - 1, j1 - 1, i1 - 1, j - 1);
      Diagonal(m, a, b, i1, j);
      Far(m, a, b, i1, j, i, j);
    } else {
      hide F;
      Diagonal(m, a, b, i, j);
      Neighbours(m, a, b, i - 1, j - 2);
    }
  }

  lemma Diagonal(m: Measure, a: seq<Elem>, b: seq<Elem>, i: nat, j: nat)
    requires 0 < i <= |a| && 0 < j <= |b| && a[i - 1] == b[j - 1]
    ensures F(m, a, b, i, j) == F(m, a, b, i - 1, j - 1)
  {
  }

  lemma {:induction false} NextColumn(m: Measure, a: seq<Elem>, b: seq<Elem>, i: nat, j: nat)
    requires 0 < i <= |a| && j < |b|
    requires F(m, a, b, i, j) <= i + j
    ensures F(m, a, b, i, j + 1) <= F(m, a, b, i, j) + 1
    ensures F(m, a, b, i, j) <= F(m, a, b, i, j + 1) + 1
    decreases i + j, 0
  {
    hide F, LastMatch;
    Neighbours(m, a, b, i - 1, j);
    Step(m, a, b, i, j + 1);
    if a[i - 1] != b[j] && m != LCS && Transposed(m, a, b, i, j + 1) < i + j + 1 {
      ColumnAfterTransposition(m, a, b, i, j);
    }
  }

  lemma {:induction false} ColumnAfterTransposition(m: Measure, a: seq<Elem>, b: seq<Elem>, i: nat, j: nat)
    requires 0 < i <= |a| && j < |b| && m != LCS
    requires Transposed(m, a, b, i, j + 1) < i + j + 1
    ensures F(m, a, b, i, j) <= Transposed(m, a, b, i, j + 1)
    decreases i + j, 0, 0
  {
    hide F, LastMatch;
    if m == DL {
      var i1, j1 := LastMatch(a, i - 1, b[j]), LastMatch(b, j, a[i - 1]);
      Far(m, a, b, i1 - 1, j1 - 1, i - 1, j1 - 1);
      Diagonal(m, a, b, i, j1);
      Far(m, a, b, i, j1, i, j);
    } else {
      Diagonal(m, a, b, i, j);
      Neighbours(m, a, b, i - 2, j - 1);
    }
  }

  /** Entries grow by at most one for every step. */
  lemma {:induction false} Far(m: Measure, a: seq<Elem>, b: seq<Elem>, p: nat, q: nat, i: nat, j: nat)
    requires p <= i <= |a| && q <= j <= |b|
    ensures F(m, a, b, i, j) <= F(m, a, b, p, q) + (i - p) + (j - q)
    decreases i + j, 0, 0, 0
  {
    hide F;
    if p < i {
      Neighbours(m, a, b, i - 1, j);
      Far(m, a, b, p, q, i - 1, j);
    } else if q < j {
      Neighbours(m, a, b, i, j - 1);
      Far(m, a, b, p, q, i, j - 1);
    }
  }

  // ---------- No alignment is cheaper than F ----------

  lemma StepBound(m: Measure, a: seq<Elem>, b: seq<Elem>, i: nat, j: nat)
    requires 0 < i <= |a| && 0 < j <= |b|
    ensures a[i - 1] != b[j - 1] ==> F(m, a, b, i, j) <= F(m, a, b, i, j - 1) + 1
    ensures a[i - 1] != b[j - 1] ==> F(m, a, b, i, j) <= F(m, a, b, i - 1, j) + 1
    ensures a[i - 1] == b[j - 1] || m != LCS ==>
              F(m, a, b, i, j) <= F(m, a, b, i - 1, j - 1) + if a[i - 1] == b[j - 1] then 0 else 1
    ensures a[i - 1] != b[j - 1] && m != LCS ==> F(m, a, b, i, j) <= Transposed(m, a, b, i, j)
  {
    hide F;
    Neighbours(m, a, b, i, j - 1);
    Neighbours(m, a, b, i - 1, j);
    Step(m, a, b, i, j);
  }

  /** The key to the algorithm for DL: of all pairs of matches that could cross over, the
      latest is as good as any. */
  lemma AnyCrossing(a: seq<Elem>, b: seq<Elem>, p: nat, q: nat, i: nat, j: nat)
    requires p + 2 <= i <= |a| && q + 2 <= j <= |b|
    requires a[p] == b[j - 1] && b[q] == a[i - 1]
    ensures F(DL, a, b, i, j) <= F(DL, a, b, p, q) + (i - p - 2) + 1 + (j - q - 2)
  {
    hide F;
    StepBound(DL, a, b, i, j);
    if a[i - 1] == b[j - 1] {
      Diagonal(DL, a, b, p + 1, q + 1);
      Far(DL, a, b, p + 1, q + 1, i - 1, j - 1);
    } else {
      var i1, j1 := LastMatch(a, i - 1, b[j - 1]), LastMatch(b, j - 1, a[i - 1]);
      Far(DL, a, b, p, q, i1 - 1, j1 - 1);
    }
  }

  lemma NeighbourCrossing(a: seq<Elem>, b: seq<Elem>, i: nat, j: nat)
    requires 2 <= i <= |a| && 2 <= j <= |b|
    requires a[i - 2] == b[j - 1] && b[j - 2] == a[i - 1]
    ensures F(RDL, a, b, i, j) <= F(RDL, a, b, i - 2, j - 2) + 1
  {
    hide F;
    StepBound(RDL, a, b, i, j);
    if a[i - 1] == b[j - 1] {
      Diagonal(RDL, a, b, i - 1, j - 1);
    }
  }

  /** No alignment of a[..i] with b[..j] costs less than F. */
  lemma {:induction false} LowerBound(m: Measure, A: seq<Block>, a: seq<Elem>, b: seq<Elem>, i: nat, j: nat)
    requires i <= |a| && j <= |b| && Aligns(m, A, a[..i], b[..j])
    ensures F(m, a, b, i, j) <= Cost(A)
    decreases |A|
  {
    hide F;
    if A == [] {
      Border(m, a, b, i, j);
    } else {
      hide Src, Tgt, Cost;
      var init, last := Last(m, A);
      var i', j' := |Src(init)|, |Tgt(init)|;
      Prefixes(Src(init), Source(last), a, i);
      Prefixes(Tgt(init), Target(last), b, j);
      LowerBound(m, init, a, b, i', j');
      LastBlockBound(m, last, a, b, i', j', i, j);
    }
  }

  lemma Prefixes(s: seq<Elem>, t: seq<Elem>, a: seq<Elem>, i: nat)
    requires i <= |a| && s + t == a[..i]
    ensures |s| + |t| == i && s == a[..|s|] && t == a[|s|..i]
  {
    assert (s + t)[..|s|] == s && (s + t)[|s|..] == t;
  }

  lemma LastBlockBound(m: Measure, last: Block, a: seq<Elem>, b: seq<Elem>, p: nat, q: nat, i: nat, j: nat)
    requires p <= i <= |a| && q <= j <= |b| && Fits(m, last)
    requires Source(last) == a[p..i] && Target(last) == b[q..j]
    ensures F(m, a, b, i, j) <= F(m, a, b, p, q) + Price(last)
  {
    hide F;
    assert |Source(last)| == i - p && |Target(last)| == j - q;
    match last
    case Del(_) =>
      Far(m, a, b, p, q, i, j);
    case Ins(_) =>
      Far(m, a, b, p, q, i, j);
    case Pair(x, y) =>
      PairBound(m, a, b, i, j);
      assert a[p..i][0] == a[i - 1] && b[q..j][0] == b[j - 1];
    case Cross(x, dels, y, inss) =>
      CrossBound(m, x, dels, y, inss, a, b, p, q, i, j);
  }

  lemma CrossBound(m: Measure, x: Elem, dels: seq<Elem>, y: Elem, inss: seq<Elem>, a: seq<Elem>, b: seq<Elem>,
                   p: nat, q: nat, i: nat, j: nat)
    requires p <= i <= |a| && q <= j <= |b| && Fits(m, Cross(x, dels, y, inss))
    requires [x] + dels + [y] == a[p..i] && [y] + inss + [x] == b[q..j]
    ensures F(m, a, b, i, j) <= F(m, a, b, p, q) + |dels| + 1 + |inss|
  {
    hide F;
    CrossEnds(x, dels, y, a, p, i);
    CrossEnds(y, inss, x, b, q, j);
    if m == DL {
      AnyCrossing(a, b, p, q, i, j);
    } else {
      NeighbourCrossing(a, b, i, j);
    }
  }

  lemma PairBound(m: Measure, a: seq<Elem>, b: seq<Elem>, i: nat, j: nat)
    requires 0 < i <= |a| && 0 < j <= |b| && (m == LCS ==> a[i - 1] == b[j - 1])
    ensures F(m, a, b, i, j) <= F(m, a, b, i - 1, j - 1) + if a[i - 1] == b[j - 1] then 0 else 1
  {
    hide F, Transposed;
    StepBound(m, a, b, i, j);
  }

  lemma CrossEnds(x: Elem, s: seq<Elem>, y: Elem, a: seq<Elem>, p: nat, i: nat)
    requires p <= i <= |a| && [x] + s + [y] == a[p..i]
    ensures i - p == |s| + 2 && a[p] == x && a[i - 1] == y
  {
    assert |a[p..i]| == |[x] + s + [y]|;
    assert a[p..i][0] == x && a[p..i][|s| + 1] == y;
  }

  // ---------- Some alignment costs just F ----------

  lemma {:induction false} Realize(m: Measure, a: seq<Elem>, b: seq<Elem>, i: nat, j: nat) returns (A: seq<Block>)
    requires i <= |a| && j <= |b|
    ensures Aligns(m, A, a[..i], b[..j]) && Cost(A) == F(m, a, b, i, j)
    decreases i + j
  {
    hide F, Src, Tgt, Cost, Transposed, Valid;
    if i == 0 || j == 0 {
      A := OneSided(m, a, b, i, j);
      return;
    }
    Neighbours(m, a, b, i, j - 1);
    Neighbours(m, a, b, i - 1, j);
    Step(m, a, b, i, j);
    assert a[..i] == a[..i - 1] + [a[i - 1]] && b[..j] == b[..j - 1] + [b[j - 1]];
    var f := F(m, a, b, i, j);
    if a[i - 1] == b[j - 1] || (m != LCS && f == F(m, a, b, i - 1, j - 1) + 1) {
      A := Realize(m, a, b, i - 1, j - 1);
      A := Add(m, A, Pair(a[i - 1], b[j - 1]));
    } else if f == F(m, a, b, i - 1, j) + 1 {
      A := Realize(m, a, b, i - 1, j);
      A := Add(m, A, Del(a[i - 1]));
    } else if f == F(m, a, b, i, j - 1) + 1 {
      A := Realize(m, a, b, i, j - 1);
      A := Add(m, A, Ins(b[j - 1]));
    } else {
      var p, q := Crossing(m, a, b, i, j);
      A := Realize(m, a, b, p, q);
      A := AddCrossing(m, A, a, b, p, q, i, j);
    }
  }

  lemma OneSided(m: Measure, a: seq<Elem>, b: seq<Elem>, i: nat, j: nat) returns (A: seq<Block>)
    requires i <= |a| && j <= |b| && (i == 0 || j == 0)
    ensures Aligns(m, A, a[..i], b[..j]) && Cost(A) == F(m, a, b, i, j)
  {
    hide F, Src, Tgt, Cost;
    Border(m, a, b, i, j);
    Nothing();
    A := AddDels(m, [], a[..i]);
    A := AddInss(m, A, b[..j]);
  }

  lemma AddCrossing(m: Measure, A: seq<Block>, a: seq<Elem>, b: seq<Elem>, p: nat, q: nat, i: nat, j: nat)
    returns (B: seq<Block>)
    requires p + 2 <= i <= |a| && q + 2 <= j <= |b| && a[p] == b[j - 1] && b[q] == a[i - 1]
    requires m == DL || (m == RDL && p + 2 == i && q + 2 == j)
    requires Aligns(m, A, a[..p], b[..q])
    ensures Aligns(m, B, a[..i], b[..j]) && Cost(B) == Cost(A) + (i - p - 2) + 1 + (j - q - 2)
  {
    hide Src, Tgt, Cost;
    var dels, inss := a[p + 1..i - 1], b[q + 1..j - 1];
    B := Add(m, A, Cross(a[p], dels, a[i - 1], inss));
    assert a[..i] == a[..p] + ([a[p]] + dels + [a[i - 1]]);
    assert b[..j] == b[..q] + ([b[q]] + inss + [b[j - 1]]);
  }

  lemma Nothing()
    ensures Src([]) == [] && Tgt([]) == [] && Cost([]) == 0
  {
  }

  /** Where the transposition of entry (i, j) starts. */
  lemma Crossing(m: Measure, a: seq<Elem>, b: seq<Elem>, i: nat, j: nat) returns (p: nat, q: nat)
    requires 0 < i <= |a| && 0 < j <= |b| && Transposed(m, a, b, i, j) < i + j
    ensures p + 2 <= i && q + 2 <= j && a[p] == b[j - 1] && b[q] == a[i - 1]
    ensures m == DL || (m == RDL && p + 2 == i && q + 2 == j)
    ensures Transposed(m, a, b, i, j) == F(m, a, b, p, q) + (i - p - 2) + 1 + (j - q - 2)
  {
    hide F;
    if m == DL {
      p, q := LastMatch(a, i - 1, b[j - 1]) - 1, LastMatch(b, j - 1, a[i - 1]) - 1;
    } else {
      p, q := i - 2, j - 2;
    }
  }

  // ---------- Main results ----------

  /** The distance is the cost of a cheapest alignment. */
  lemma DistanceIsCheapestAlignment(m: Measure, a: seq<Elem>, b: seq<Elem>)
    ensures forall A | Aligns(m, A, a, b) :: Distance(m, a, b) <= Cost(A)
    ensures exists A :: Aligns(m, A, a, b) && Cost(A) == Distance(m, a, b)
  {
    assert a[..|a|] == a && b[..|b|] == b;
    forall A | Aligns(m, A, a, b)
      ensures Distance(m, a, b) <= Cost(A)
    {
      LowerBound(m, A, a, b, |a|, |b|);
    }
    var A := Realize(m, a, b, |a|, |b|);
  }

  /** For LCS, LEV and DL the distance is the length of a shortest rewriting of a into b, out of
      all rewritings by the edits of the measure, overlapping edits included. */
  lemma DistanceIsShortestRewriting(m: Measure, a: seq<Elem>, b: seq<Elem>)
    requires m != RDL
    ensures forall es | Rewrites(m, a, es, b) :: Distance(m, a, b) <= |es|
    ensures exists es :: Rewrites(m, a, es, b) && |es| == Distance(m, a, b)
  {
    hide Rewrites, Src, Tgt, Cost, F;
    assert a[..|a|] == a && b[..|b|] == b;
    forall es | Rewrites(m, a, es, b)
      ensures Distance(m, a, b) <= |es|
    {
      var A := RewritingAligns(m, a, es, b);
      LowerBound(m, A, a, b, |a|, |b|);
    }
    var A := Realize(m, a, b, |a|, |b|);
    var es := AlignmentRewrites(m, A, []);
    assert a + [] == a && b + [] == b;
  }

  // ---------- Symmetries: exchanging the strings, and stripping equal ends ----------

  function Flip(b: Block): Block {
    match b
    case Del(x) => Ins(x)
    case Ins(y) => Del(y)
    case Pair(x, y) => Pair(y, x)
    case Cross(x, dels, y, inss) => Cross(y, inss, x, dels)
  }

  lemma {:induction false} FlipAlignment(m: Measure, A: seq<Block>) returns (B: seq<Block>)
    requires Valid(m, A)
    ensures Aligns(m, B, Tgt(A), Src(A)) && Cost(B) == Cost(A)
    decreases |A|
  {
    B := [];
    if A != [] {
      hide Src, Tgt, Cost;
      var init, b := Last(m, A);
      B := FlipAlignment(m, init);
      B := Add(m, B, Flip(b));
    }
  }

  /** Exchanging source and target changes no distance. */
  lemma Symmetric(m: Measure, a: seq<Elem>, b: seq<Elem>)
    ensures Distance(m, a, b) == Distance(m, b, a)
  {
    hide F;
    NotFarther(m, a, b);
    NotFarther(m, b, a);
  }

  lemma NotFarther(m: Measure, a: seq<Elem>, b: seq<Elem>)
    ensures Distance(m, b, a) <= Distance(m, a, b)
  {
    hide F, Src, Tgt, Cost;
    assert a[..|a|] == a && b[..|b|] == b;
    var A := Realize(m, a, b, |a|, |b|);
    var B := FlipAlignment(m, A);
    LowerBound(m, B, b, a, |b|, |a|);
  }

  function Reverse(s: seq<Elem>): (r: seq<Elem>)
    ensures |r| == |s| && forall k | 0 <= k < |s| :: r[k] == s[|s| - 1 - k]
  {
    if s == [] then [] else Reverse(s[1..]) + [s[0]]
  }

  lemma ReverseJoin(s: seq<Elem>, t: seq<Elem>)
    ensures Reverse(s + t) == Reverse(t) + Reverse(s)
  {
    hide Reverse;
  }

  lemma ReverseTwice(s: seq<Elem>)
    ensures Reverse(Reverse(s)) == s
  {
    hide Reverse;
  }

  function Mirror(b: Block): Block {
    match b
    case Del(x) => b
    case Ins(y) => b
    case Pair(x, y) => b
    case Cross(x, dels, y, inss) => Cross(y, Reverse(dels), x, Reverse(inss))
  }

  /** A stands before B, and C is the two together. */
  ghost predicate Joined(m: Measure, A: seq<Block>, B: seq<Block>, C: seq<Block>) {
    Aligns(m, C, Src(A) + Src(B), Tgt(A) + Tgt(B)) && Cost(C) == Cost(A) + Cost(B)
  }

  /** An alignment in front of another. */
  lemma {:induction false} Concat(m: Measure, A: seq<Block>, B: seq<Block>)
    requires Valid(m, A) && Valid(m, B)
    ensures Joined(m, A, B, A + B)
    decreases |B|
  {
    hide Joined, Src, Tgt, Cost, Valid;
    if B == [] {
      ConcatNothing(m, A);
    } else {
      var init, b := Last(m, B);
      Concat(m, A, init);
      ConcatOne(m, A, init, b);
      assert A + B == A + init + [b];
    }
  }

  lemma ConcatNothing(m: Measure, A: seq<Block>)
    requires Valid(m, A)
    ensures Joined(m, A, [], A + [])
  {
    assert A + [] == A;
  }

  lemma ConcatOne(m: Measure, A: seq<Block>, B: seq<Block>, b: Block)
    requires Valid(m, A) && Valid(m, B) && Fits(m, b) && Joined(m, A, B, A + B)
    ensures Joined(m, A, B + [b], A + B + [b])
  {
    hide Src, Tgt, Cost, Valid, Fits, Source, Target, Price;
    var B' := Add(m, B, b);
    var C := Add(m, A + B, b);
    Join3(Src(A), Src(B), Source(b));
    Join3(Tgt(A), Tgt(B), Target(b));
  }

  lemma MirrorBlock(m: Measure, b: Block)
    requires Fits(m, b)
    ensures Fits(m, Mirror(b)) && Price(Mirror(b)) == Price(b)
    ensures Source(Mirror(b)) == Reverse(Source(b)) && Target(Mirror(b)) == Reverse(Target(b))
  {
    hide Reverse;
    if b.Cross? {
      assert [b.y] + Reverse(b.dels) + [b.x] == Reverse([b.x] + b.dels + [b.y]);
      assert [b.x] + Reverse(b.inss) + [b.y] == Reverse([b.y] + b.inss + [b.x]);
    }
  }

  lemma {:induction false} MirrorAlignment(m: Measure, A: seq<Block>) returns (B: seq<Block>)
    requires Valid(m, A)
    ensures Aligns(m, B, Reverse(Src(A)), Reverse(Tgt(A))) && Cost(B) == Cost(A)
    decreases |A|
  {
    B := [];
    if A != [] {
      hide Src, Tgt, Cost, Reverse, Source, Target, Mirror, Valid, Fits;
      var init, b := Last(m, A);
      B := MirrorAlignment(m, init);
      MirrorBlock(m, b);
      var C := Single(m, Mirror(b));
      ReverseJoin(Src(init), Source(b));
      ReverseJoin(Tgt(init), Target(b));
      Concat(m, C, B);
      B := C + B;
    }
  }

  lemma Single(m: Measure, b: Block) returns (A: seq<Block>)
    requires Fits(m, b)
    ensures Aligns(m, A, Source(b), Target(b)) && Cost(A) == Price(b)
  {
    hide Src, Tgt, Cost;
    Nothing();
    A := Add(m, [], b);
  }

  /** Reading both strings backwards changes no distance. */
  lemma Backwards(m: Measure, a: seq<Elem>, b: seq<Elem>)
    ensures Distance(m, Reverse(a), Reverse(b)) == Distance(m, a, b)
  {
    hide F, Reverse;
    NotFartherBackwards(m, a, b);
    NotFartherBackwards(m, Reverse(a), Reverse(b));
    ReverseTwice(a);
    ReverseTwice(b);
  }

  lemma NotFartherBackwards(m: Measure, a: seq<Elem>, b: seq<Elem>)
    ensures Distance(m, Reverse(a), Reverse(b)) <= Distance(m, a, b)
  {
    hide F, Src, Tgt, Cost, Reverse;
    assert a[..|a|] == a && b[..|b|] == b;
    var ra, rb := Reverse(a), Reverse(b);
    var A := Realize(m, a, b, |a|, |b|);
    var B := MirrorAlignment(m, A);
    assert ra[..|ra|] == ra && rb[..|rb|] == rb;
    LowerBound(m, B, ra, rb, |ra|, |rb|);
  }

  /** F looks at no more than the prefixes it is asked about. */
  lemma FOfPrefixes(m: Measure, a: seq<Elem>, b: seq<Elem>, k: nat, l: nat)
    requires k <= |a| && l <= |b|
    ensures Distance(m, a[..k], b[..l]) == F(m, a, b, k, l)
  {
    hide F, Src, Tgt, Cost;
    var a', b' := a[..k], b[..l];
    assert a'[..k] == a[..k] && b'[..l] == b[..l];
    var A := Realize(m, a, b, k, l);
    LowerBound(m, A, a', b', k, l);
    var B := Realize(m, a', b', k, l);
    LowerBound(m, B, a, b, k, l);
  }

  lemma StripLast(m: Measure, a: seq<Elem>, b: seq<Elem>)
    requires a != [] && b != [] && a[|a| - 1] == b[|b| - 1]
    ensures Distance(m, a[..|a| - 1], b[..|b| - 1]) == Distance(m, a, b)
  {
    FOfPrefixes(m, a, b, |a| - 1, |b| - 1);
  }

  lemma StripFirst(m: Measure, a: seq<Elem>, b: seq<Elem>)
    requires a != [] && b != [] && a[0] == b[0]
    ensures Distance(m, a[1..], b[1..]) == Distance(m, a, b)
  {
    hide F, Reverse;
    var ra, rb := Reverse(a), Reverse(b);
    Backwards(m, a, b);
    Backwards(m, a[1..], b[1..]);
    StripLast(m, ra, rb);
    assert Reverse(a[1..]) == ra[..|ra| - 1] && Reverse(b[1..]) == rb[..|rb| - 1];
  }
}
