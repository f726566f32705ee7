/** The edit distance algorithms as the library runs them: one row for LCS and LEV, two rows
with saved diagonals for RDL, the whole Lowrance-Wagner matrix for DL, and the entry point
that strips common ends, exchanges the strings and dispatches. */
module EditDistance {
  import opened Alignment
  import opened EditMatrix

  // ---------- One row ----------

  /** One row, overwritten from left to right; the entry overwritten last is kept. */
  method OneRow(m: Measure, src: seq<Elem>, tgt: seq<Elem>) returns (total: nat)
    requires m == LCS || m == LEV
    ensures total == Distance(m, src, tgt)
  {
    hide F;
    var slen, tlen := |src|, |tgt|;
    var dist := new nat[slen + 1];
    dist[0] := 0;
    Border(m, src, tgt, 0, 0);
    var i := 1;
    while i <= slen
      invariant 1 <= i <= slen + 1
      invariant forall k: nat | k < i :: dist[k] == F(m, src, tgt, k, 0)
    {
      dist[i] := dist[i - 1] + 1;
      Border(m, src, tgt, i, 0);
      Border(m, src, tgt, i - 1, 0);
      i := i + 1;
    }
    var j := 1;
    while j <= tlen
      invariant 1 <= j <= tlen + 1
      invariant forall k: nat | k <= slen :: dist[k] == F(m, src, tgt, k, j - 1)
    {
      var diagdist := dist[0];
      dist[0] := dist[0] + 1;
      Border(m, src, tgt, 0, j);
      Border(m, src, tgt, 0, j - 1);
      i := 1;
      while i <= slen
        invariant 1 <= i <= slen + 1
        invariant forall k: nat | k < i :: dist[k] == F(m, src, tgt, k, j)
        invariant forall k: nat | i <= k <= slen :: dist[k] == F(m, src, tgt, k, j - 1)
        invariant diagdist == F(m, src, tgt, i - 1, j - 1)
      {
        var nextdiagdist := dist[i];
        Entry(m, src, tgt, i, j);
        if src[i - 1] == tgt[j - 1] {
          dist[i] := diagdist;
        } else {
          var insdist := dist[i] + 1;
          var deldist := dist[i - 1] + 1;
          if m == LCS {
            dist[i] := Min2(insdist, deldist);
          } else {
            var subdist := diagdist + 1;
            dist[i] := Min3(insdist, deldist, subdist);
          }
        }
        diagdist := nextdiagdist;
        i := i + 1;
      }
      j := j + 1;
    }
    total := dist[slen];
  }

  /** One unfolding of the recurrence, as the loops compute it. */
  lemma Entry(m: Measure, a: seq<Elem>, b: seq<Elem>, i: nat, j: nat)
    requires 0 < i <= |a| && 0 < j <= |b|
    ensures F(m, a, b, i, j) ==
            if a[i - 1] == b[j - 1] then F(m, a, b, i - 1, j - 1)
            else
              var ins, del := F(m, a, b, i, j - 1) + 1, F(m, a, b, i - 1, j) + 1;
              if m == LCS then Min2(ins, del)
              else if m == LEV then Min3(ins, del, F(m, a, b, i - 1, j - 1) + 1)
              else Min2(Min3(ins, del, F(m, a, b, i - 1, j - 1) + 1), Transposed(m, a, b, i, j))
  {
    hide F;
    Neighbours(m, a, b, i, j - 1);
    Neighbours(m, a, b, i - 1, j);
    Step(m, a, b, i, j);
  }

  // ---------- Two rows ----------

  /** Two rows take turns; the entries two rows up are saved on the way before the row that
      holds them is overwritten. */
  method EditDistanceRdl(src: seq<Elem>, tgt: seq<Elem>) returns (total: nat)
    ensures total == Distance(RDL, src, tgt)
  {
    hide F;
    var slen, tlen := |src|, |tgt|;
    var dist, prevdist := new nat[slen + 1], new nat[slen + 1];
    dist[0] := 0;
    Border(RDL, src, tgt, 0, 0);
    var i := 1;
    while i <= slen
      invariant 1 <= i <= slen + 1
      invariant forall k: nat | k < i :: dist[k] == F(RDL, src, tgt, k, 0)
    {
      dist[i] := dist[i - 1] + 1;
      Border(RDL, src, tgt, i, 0);
      Border(RDL, src, tgt, i - 1, 0);
      i := i + 1;
    }
    var j := 1;
    while j <= tlen
      invariant 1 <= j <= tlen + 1
      invariant dist != prevdist && dist.Length == prevdist.Length == slen + 1
      invariant fresh(dist) && fresh(prevdist)
      invariant forall k: nat | k <= slen :: dist[k] == F(RDL, src, tgt, k, j - 1)
      invariant j > 1 ==> forall k: nat | k <= slen :: prevdist[k] == F(RDL, src, tgt, k, j - 2)
    {
      var diagdist1, diagdist2: nat := prevdist[0], 0;
      dist, prevdist := prevdist, dist;
      dist[0] := prevdist[0] + 1;
      Border(RDL, src, tgt, 0, j);
      Border(RDL, src, tgt, 0, j - 1);
      i := 1;
      while i <= slen
        invariant 1 <= i <= slen + 1
        invariant forall k: nat | k < i :: dist[k] == F(RDL, src, tgt, k, j)
        invariant forall k: nat | k <= slen :: prevdist[k] == F(RDL, src, tgt, k, j - 1)
        invariant j > 1 ==> forall k: nat | i <= k <= slen :: dist[k] == F(RDL, src, tgt, k, j - 2)
        invariant j > 1 ==> diagdist1 == F(RDL, src, tgt, i - 1, j - 2)
        invariant j > 1 && i > 1 ==> diagdist2 == F(RDL, src, tgt, i - 2, j - 2)
      {
        var nextdiagdist := dist[i];
        EntryRdl(src, tgt, i, j);
        if src[i - 1] == tgt[j - 1] {
          dist[i] := prevdist[i - 1];
        } else {
          var insdist := prevdist[i] + 1;
          var deldist := dist[i - 1] + 1;
          var subdist := prevdist[i - 1] + 1;
          dist[i] := Min3(insdist, deldist, subdist);
          if j > 1 && i > 1 && src[i - 2] == tgt[j - 1] && src[i - 1] == tgt[j - 2] {
            var tradist := diagdist2 + 1;
            dist[i] := Min2(dist[i], tradist);
          }
        }
        diagdist2 := diagdist1;
        diagdist1 := nextdiagdist;
        i := i + 1;
      }
      j := j + 1;
    }
    total := dist[slen];
  }

  lemma EntryRdl(a: seq<Elem>, b: seq<Elem>, i: nat, j: nat)
    requires 0 < i <= |a| && 0 < j <= |b|
    ensures F(RDL, a, b, i, j) ==
            if a[i - 1] == b[j - 1] then F(RDL, a, b, i - 1, j - 1)
            else
              var best := Min3(F(RDL, a, b, i, j - 1) + 1, F(RDL, a, b, i - 1, j) + 1, F(RDL, a, b, i - 1, j - 1) + 1);
              if i > 1 && j > 1 && a[i - 2] == b[j - 1] && a[i - 1] == b[j - 2]
              then Min2(best, F(RDL, a, b, i - 2, j - 2) + 1)
              else best
  {
    hide F;
    Entry(RDL, a, b, i, j);
    Neighbours(RDL, a, b, i, j - 1);
  }

  // ---------- The whole matrix ----------

  const ED_HASH_MAX := 0xFF

  /** Elements as table indices: no two share one. */
  function HashElem(e: Elem): (h: nat)
    ensures h <= ED_HASH_MAX
  {
    if e < 0 then e + 0x100 else e
  }

  /** Rows 0 to n of the matrix are in place: row r stands for the first r - 1 elements of tgt and
      column c for the first c - 1 of src; row 0 and column 0 hold an upper bound of every
      distance, so that a transposition without a match never wins. */
  ghost predicate Filled(src: seq<Elem>, tgt: seq<Elem>, dist: array2<nat>, n: nat)
    reads dist
  {
    && dist.Length0 == |tgt| + 2 && dist.Length1 == |src| + 2 && n <= |tgt| + 1
    && (forall c | 0 <= c < |src| + 2 :: dist[0, c] == |src| + |tgt|)
    && (forall r | 1 <= r <= n :: dist[r, 0] == |src| + |tgt|)
    && (forall r, c | 1 <= r <= n && 1 <= c <= |src| + 1 :: dist[r, c] == F(DL, src, tgt, c - 1, r - 1))
  }

  /** The rows for an empty target. */
  method FirstRows(src: seq<Elem>, tgt: seq<Elem>, dist: array2<nat>)
    requires dist.Length0 == |tgt| + 2 && dist.Length1 == |src| + 2
    modifies dist
    ensures Filled(src, tgt, dist, 1)
  {
    hide F;
    var slen, maxdist := |src|, |src| + |tgt|;
    var i := 0;
    while i < slen + 2
      invariant 0 <= i <= slen + 2
      invariant forall c | 0 <= c < i :: dist[0, c] == maxdist
    {
      dist[0, i] := maxdist;
      i := i + 1;
    }
    dist[1, 0] := maxdist;
    dist[1, 1] := 0;
    Border(DL, src, tgt, 0, 0);
    i := 1;
    while i <= slen
      invariant 1 <= i <= slen + 1
      invariant forall c | 0 <= c < slen + 2 :: dist[0, c] == maxdist
      invariant dist[1, 0] == maxdist
      invariant forall c | 1 <= c <= i :: dist[1, c] == F(DL, src, tgt, c - 1, 0)
    {
      dist[1, i + 1] := dist[1, i] + 1;
      Border(DL, src, tgt, i, 0);
      Border(DL, src, tgt, i - 1, 0);
      i := i + 1;
    }
  }

  /** The entry for the first i and j elements, and the last match of tgt's element so far. */
  method NextEntryDl(src: seq<Elem>, tgt: seq<Elem>, i: nat, j: nat, dist: array2<nat>, lasttgt: array<nat>,
                     lastsrc: nat) returns (entry: nat, lastsrc': nat)
    requires 1 <= j <= |tgt| && Filled(src, tgt, dist, j) && 1 <= i <= |src|
    requires dist[j + 1, i] == F(DL, src, tgt, i - 1, j)
    requires lasttgt.Length == ED_HASH_MAX + 1
    requires forall e: Elem :: lasttgt[HashElem(e)] == LastMatch(tgt, j - 1, e)
    requires lastsrc == LastMatch(src, i - 1, tgt[j - 1])
    ensures entry == F(DL, src, tgt, i, j) && lastsrc' == LastMatch(src, i, tgt[j - 1])
  {
    hide F, LastMatch;
    var i1, j1 := lastsrc, lasttgt[HashElem(src[i - 1])];
    EntryDl(src, tgt, i, j, i1, j1);
    Corner(src, tgt, dist, j, i1, j1);
    ExtendMatch(src, i - 1, tgt[j - 1]);
    if src[i - 1] == tgt[j - 1] {
      entry, lastsrc' := dist[j, i], i;
    } else {
      var insdist := dist[j, i + 1] + 1;
      var deldist := dist[j + 1, i] + 1;
      var subdist := dist[j, i] + 1;
      var best := Min3(insdist, deldist, subdist);
      var swpdist := dist[j1, i1] + (j - j1 - 1) + 1 + (i - i1 - 1);
      entry, lastsrc' := Min2(best, swpdist), lastsrc;
    }
  }

  /** The row for the first j elements of tgt. */
  method NextRowDl(src: seq<Elem>, tgt: seq<Elem>, j: nat, dist: array2<nat>, lasttgt: array<nat>)
    requires 1 <= j <= |tgt| && Filled(src, tgt, dist, j)
    requires lasttgt.Length == ED_HASH_MAX + 1
    requires forall e: Elem :: lasttgt[HashElem(e)] == LastMatch(tgt, j - 1, e)
    modifies dist
    ensures Filled(src, tgt, dist, j + 1)
  {
    hide F, LastMatch;
    var slen, maxdist, row := |src|, |src| + |tgt|, j + 1;
    var lastsrc: nat := 0;
    dist[row, 0] := maxdist;
    dist[row, 1] := dist[j, 1] + 1;
    Border(DL, src, tgt, 0, j);
    Border(DL, src, tgt, 0, j - 1);
    NoMatch(src, tgt[j - 1]);
    var i := 1;
    while i <= slen
      invariant 1 <= i <= slen + 1
      invariant Filled(src, tgt, dist, j) && dist[row, 0] == maxdist
      invariant forall c | 1 <= c <= i :: dist[row, c] == F(DL, src, tgt, c - 1, j)
      invariant lastsrc == LastMatch(src, i - 1, tgt[j - 1])
    {
      var entry;
      entry, lastsrc := NextEntryDl(src, tgt, i, j, dist, lasttgt, lastsrc);
      dist[row, i + 1] := entry;
      i := i + 1;
    }
  }

  /** Lowrance and Wagner's algorithm. */
  method EditDistanceDl(src: seq<Elem>, tgt: seq<Elem>) returns (total: nat)
    ensures total == Distance(DL, src, tgt)
  {
    hide F, LastMatch;
    var tlen := |tgt|;
    var dist := new nat[tlen + 2, |src| + 2];
    FirstRows(src, tgt, dist);
    var lasttgt := new nat[ED_HASH_MAX + 1](_ => 0);
    NoMatches(tgt);
    assert forall e: Elem :: lasttgt[HashElem(e)] == 0;
    var j := 1;
    while j <= tlen
      invariant 1 <= j <= tlen + 1
      invariant Filled(src, tgt, dist, j)
      invariant forall e: Elem :: lasttgt[HashElem(e)] == LastMatch(tgt, j - 1, e)
    {
      NextRowDl(src, tgt, j, dist, lasttgt);
      forall e: Elem
        ensures (if e == tgt[j - 1] then j else lasttgt[HashElem(e)]) == LastMatch(tgt, j, e)
      {
        ExtendMatch(tgt, j - 1, e);
      }
      lasttgt[HashElem(tgt[j - 1])] := j;
      j := j + 1;
    }
    total := dist[tlen + 1, |src| + 1];
  }

  lemma NoMatch(s: seq<Elem>, e: Elem)
    ensures LastMatch(s, 0, e) == 0
  {
  }

  lemma NoMatches(s: seq<Elem>)
    ensures forall e: Elem :: LastMatch(s, 0, e) == 0
  {
  }

  /** The entry for a candidate transposition, or the border. */
  lemma Corner(src: seq<Elem>, tgt: seq<Elem>, dist: array2<nat>, n: nat, i1: nat, j1: nat)
    requires Filled(src, tgt, dist, n) && j1 <= n && i1 <= |src|
    ensures dist[j1, i1] == if i1 > 0 && j1 > 0 then F(DL, src, tgt, i1 - 1, j1 - 1) else |src| + |tgt|
  {
    hide F;
  }

  lemma ExtendMatch(s: seq<Elem>, n: nat, e: Elem)
    requires n < |s|
    ensures LastMatch(s, n + 1, e) == if s[n] == e then n + 1 else LastMatch(s, n, e)
  {
  }

  /** One entry of DL, the border value standing in for a missing transposition. */
  lemma EntryDl(a: seq<Elem>, b: seq<Elem>, i: nat, j: nat, i1: nat, j1: nat)
    requires 0 < i <= |a| && 0 < j <= |b|
    requires i1 == LastMatch(a, i - 1, b[j - 1]) && j1 == LastMatch(b, j - 1, a[i - 1])
    ensures F(DL, a, b, i, j) ==
            if a[i - 1] == b[j - 1] then F(DL, a, b, i - 1, j - 1)
            else
              var best := Min3(F(DL, a, b, i, j - 1) + 1, F(DL, a, b, i - 1, j) + 1, F(DL, a, b, i - 1, j - 1) + 1);
              var corner := if i1 > 0 && j1 > 0 then F(DL, a, b, i1 - 1, j1 - 1) else |a| + |b|;
              Min2(best, corner + (j - j1 - 1) + 1 + (i - i1 - 1))
  {
    hide F;
    Entry(DL, a, b, i, j);
    Neighbours(DL, a, b, i, j - 1);
  }

  // ---------- The entry point ----------

  /** The distance by any of the four measures. */
  method EditDistanceOf(src0: seq<Elem>, tgt0: seq<Elem>, measure: Measure) returns (r: nat)
    ensures r == Distance(measure, src0, tgt0)
  {
    hide F;
    var src, tgt := src0, tgt0;
    while |src| > 0 && |tgt| > 0 && src[0] == tgt[0]
      invariant Distance(measure, src, tgt) == Distance(measure, src0, tgt0)
      decreases |src|
    {
      StripFirst(measure, src, tgt);
      src, tgt := src[1..], tgt[1..];
    }
    while |src| > 0 && |tgt| > 0 && src[|src| - 1] == tgt[|tgt| - 1]
      invariant Distance(measure, src, tgt) == Distance(measure, src0, tgt0)
      decreases |src|
    {
      StripLast(measure, src, tgt);
      src, tgt := src[..|src| - 1], tgt[..|tgt| - 1];
    }
    if |src| > |tgt| {
      Symmetric(measure, src, tgt);
      src, tgt := tgt, src;
    }
    if |src| == 0 {
      Border(measure, src, tgt, 0, |tgt|);
      return |tgt|;
    }
    match measure
    case LCS => r := OneRow(LCS, src, tgt);
    case LEV => r := OneRow(LEV, src, tgt);
    case RDL => r := EditDistanceRdl(src, tgt);
    case DL => r := EditDistanceDl(src, tgt);
  }
}
