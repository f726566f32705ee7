/** The triangle of furthest-reaching points built by bdelta's diff (Myers' O(ND)
algorithm), and the climb from its solution back to the top.

Row d holds, for every diagonal k = -d, -d + 2, ..., d, the x of the furthest point
(x, x - k) that d edits can reach.  All rows are kept, one after the other, in one
growing buffer. */
module Triangle {
  import opened EditGrid

  const INT_MAX: int := 0x7fff_ffff

  /** Where row d starts in the buffer. */
  function RowStart(d: nat): nat {
    if d == 0 then 0 else RowStart(d - 1) + d
  }

  /** (x, x - k) is the last point of diagonal k within d edits. */
  ghost predicate Furthest<T>(a: seq<T>, b: seq<T>, d: nat, k: int, x: nat) {
    && x - k >= 0
    && Dist(a, b, x, x - k) <= d
    && Dist(a, b, x + 1, x + 1 - k) > d
  }

  /** Entry i > 0 of row d > 0 grows out of the entry to its upper right (an insertion) or to
      its upper left (a skip): the rule by which rows are built and later climbed. */
  ghost predicate FromRight(data: seq<nat>, d: nat, i: nat)
    requires 1 <= d && i <= d && RowStart(d) <= |data|
  {
    i == 0 || (i != d && data[RowStart(d - 1) + i - 1] < data[RowStart(d - 1) + i])
  }

  /** The x at which entry i of row d starts sliding along its diagonal. */
  ghost function SlideStart(data: seq<nat>, d: nat, i: nat): nat
    requires 1 <= d && i <= d && RowStart(d) <= |data|
  {
    if FromRight(data, d, i) then data[RowStart(d - 1) + i] else data[RowStart(d - 1) + i - 1] + 1
  }

  /** At (x, x - k) diagonal k has a diagonal step. */
  ghost predicate MatchOn<T>(a: seq<T>, b: seq<T>, k: int, x: nat) {
    x - k >= 0 && Match(a, b, x, x - k)
  }

  /** Diagonal k can be followed from x0 down to x. */
  ghost predicate Slides<T>(a: seq<T>, b: seq<T>, k: int, x0: nat, x: nat) {
    x0 <= x && x0 - k >= 0 && forall j: nat :: x0 <= j < x ==> MatchOn(a, b, k, j)
  }

  /** Entry i of row d is right. */
  ghost predicate Entry<T>(a: seq<T>, b: seq<T>, data: seq<nat>, d: nat, i: nat)
    requires i <= d && RowStart(d) + i < |data|
  {
    var x, k := data[RowStart(d) + i], 2 * i - d;
    && Furthest(a, b, d, k, x)
    && (d == 0 ==> Slides(a, b, 0, 0, x))
    && (d > 0 ==> Slides(a, b, k, SlideStart(data, d, i), x))
  }

  /** Rows 0 to d - 1 and the first n entries of row d are in place. */
  ghost predicate Built<T>(a: seq<T>, b: seq<T>, data: seq<nat>, d: nat, n: nat) {
    && n <= d + 1
    && |data| == RowStart(d) + n
    && (forall d', i | 0 <= d' < d && 0 <= i <= d' :: RowStart(d') + i < |data| && Entry(a, b, data, d', i))
    && (forall i | 0 <= i < n :: Entry(a, b, data, d, i))
  }

  lemma {:induction false} RowStartMonotone(d: nat, e: nat)
    requires d < e
    ensures RowStart(d) + d + 1 <= RowStart(e)
  {
    if d + 1 < e {
      RowStartMonotone(d, e - 1);
    }
  }

  /** Appending a correct entry keeps the ones in place. */
  lemma BuiltGrows<T>(a: seq<T>, b: seq<T>, data: seq<nat>, d: nat, n: nat, x: nat)
    requires Built(a, b, data, d, n) && n <= d && 1 <= d
    requires Entry(a, b, data + [x], d, n)
    ensures Built(a, b, data + [x], d, n + 1)
  {
    var data' := data + [x];
    forall d', i | 0 <= d' < d && 0 <= i <= d'
      ensures RowStart(d') + i < |data'| && Entry(a, b, data', d', i)
    {
      RowStartMonotone(d', d);
      assert Entry(a, b, data, d', i);
      SameEntry(a, b, data, data', d', i);
    }
    forall i | 0 <= i < n
      ensures Entry(a, b, data', d, i)
    {
      assert Entry(a, b, data, d, i);
      SameEntry(a, b, data, data', d, i);
    }
  }

  lemma SameEntry<T>(a: seq<T>, b: seq<T>, data: seq<nat>, data': seq<nat>, d: nat, i: nat)
    requires i <= d && RowStart(d) + i < |data| && data <= data'
    requires Entry(a, b, data, d, i)
    ensures Entry(a, b, data', d, i)
  {
    assert d > 0 ==> SlideStart(data', d, i) == SlideStart(data, d, i);
  }

  // ---------- One entry ----------

  /** A slide along matches neither gains nor loses distance. */
  lemma {:induction false} SlideKeepsDist<T>(a: seq<T>, b: seq<T>, k: int, x0: nat, x: nat)
    requires Slides(a, b, k, x0, x)
    ensures Dist(a, b, x, x - k) == Dist(a, b, x0, x0 - k)
    decreases x
  {
    if x0 < x {
      assert MatchOn(a, b, k, x - 1);
      SlideKeepsDist(a, b, k, x0, x - 1);
    }
  }

  /** Nothing on a diagonal is within reach once a point of it is not. */
  lemma BeyondFurthest<T>(a: seq<T>, b: seq<T>, d: nat, k: int, x: nat, x': nat)
    requires Furthest(a, b, d, k, x) && x' > x
    ensures Dist(a, b, x', x' - k) > d
  {
    DiagonalMonotone(a, b, x + 1, x + 1 - k, x' - x - 1);
  }

  /** The heart of the algorithm: one edit from the furthest points of row d - 1, then a slide
      as far as the strings agree, reaches the furthest point of row d. */
  lemma EntryIsFurthest<T>(a: seq<T>, b: seq<T>, data: seq<nat>, d: nat, i: nat, x: nat)
    requires 1 <= d && i <= d && Built(a, b, data, d, i)
    requires Slides(a, b, 2 * i - d, SlideStart(data, d, i), x)
    requires !MatchOn(a, b, 2 * i - d, x)
    ensures Furthest(a, b, d, 2 * i - d, x)
  {
    var k := 2 * i - d;
    StartWithinReach(a, b, data, d, i);
    SlideKeepsDist(a, b, k, SlideStart(data, d, i), x);
    NextOutOfReach(a, b, data, d, i, x);
  }

  lemma StartWithinReach<T>(a: seq<T>, b: seq<T>, data: seq<nat>, d: nat, i: nat)
    requires 1 <= d && i <= d && Built(a, b, data, d, i)
    ensures var x0, k := SlideStart(data, d, i), 2 * i - d; x0 - k >= 0 && Dist(a, b, x0, x0 - k) <= d
  {
    var x0, k := SlideStart(data, d, i), 2 * i - d;
    RowStartMonotone(d - 1, d);
    if FromRight(data, d, i) {
      assert Entry(a, b, data, d - 1, i);
      Neighbours(a, b, x0, x0 - (k + 1));
    } else {
      assert Entry(a, b, data, d - 1, i - 1);
      Neighbours(a, b, x0 - 1, x0 - 1 - (k - 1));
    }
  }

  /** The start is no nearer than either of the entries above it allows. */
  lemma StartIsFarther(data: seq<nat>, d: nat, i: nat)
    requires 1 <= d && i <= d && RowStart(d) <= |data|
    ensures i < d ==> data[RowStart(d - 1) + i] <= SlideStart(data, d, i)
    ensures 0 < i ==> data[RowStart(d - 1) + i - 1] < SlideStart(data, d, i)
  {
  }

  lemma NextOutOfReach<T>(a: seq<T>, b: seq<T>, data: seq<nat>, d: nat, i: nat, x: nat)
    requires 1 <= d && i <= d && Built(a, b, data, d, i)
    requires SlideStart(data, d, i) <= x && x - (2 * i - d) >= 0
    requires !MatchOn(a, b, 2 * i - d, x)
    ensures Dist(a, b, x + 1, x + 1 - (2 * i - d)) > d
  {
    hide Dist, SlideStart, FromRight;
    var k, row := 2 * i - d, RowStart(d - 1);
    var y := x - k;
    RowStartMonotone(d - 1, d);
    StartIsFarther(data, d, i);
    assert Dist(a, b, x + 1, y) >= d by {
      if i < d {
        assert Entry(a, b, data, d - 1, i);
        BeyondFurthest(a, b, d - 1, k + 1, data[row + i], x + 1);
      } else {
        DistBounds(a, b, x + 1, y);
      }
    }
    assert Dist(a, b, x, y + 1) >= d by {
      if 0 < i {
        assert Entry(a, b, data, d - 1, i - 1);
        BeyondFurthest(a, b, d - 1, k - 1, data[row + i - 1], x);
      } else {
        DistBounds(a, b, x, y + 1);
      }
    }
    DistOfMismatch(a, b, x, y);
  }

  /** Stored points can lie outside the grid, but by no more than d: they fit 32 bits when
      |a| + |b| fits an int. */
  lemma StoredPointFits<T>(a: seq<T>, b: seq<T>, data: seq<nat>, d: nat, i: nat)
    requires i <= d && RowStart(d) + i < |data| && Entry(a, b, data, d, i)
    ensures var x := data[RowStart(d) + i]; x <= |a| + d && 0 <= x - (2 * i - d) <= |b| + d
  {
    hide Dist, SlideStart;
    var x := data[RowStart(d) + i];
    DistBounds(a, b, x, x - (2 * i - d));
  }

  /** Every index of the buffer is an entry of some row. */
  lemma {:induction false} InSomeRow(d: nat, n: nat, p: nat) returns (row: nat, i: nat)
    requires n <= d + 1 && p < RowStart(d) + n
    ensures row <= d && i <= row && RowStart(row) + i == p && (row == d ==> i < n)
    decreases d
  {
    if p >= RowStart(d) {
      row, i := d, p - RowStart(d);
    } else {
      row, i := InSomeRow(d - 1, d, p);
    }
  }

  /** All that is stored fits 32 bits. */
  ghost predicate Fits32(data: seq<nat>) {
    forall p | 0 <= p < |data| :: data[p] < 0x1_0000_0000
  }

  lemma BuiltFits<T>(a: seq<T>, b: seq<T>, data: seq<nat>, d: nat, n: nat)
    requires Built(a, b, data, d, n) && d <= |a| + |b| < INT_MAX
    ensures Fits32(data)
  {
    hide Entry, RowStart;
    forall p | 0 <= p < |data|
      ensures data[p] < 0x1_0000_0000
    {
      var row, i := InSomeRow(d, n, p);
      assert Entry(a, b, data, row, i);
      StoredPointFits(a, b, data, row, i);
    }
  }

  /** Between an empty string and one of two elements row 1 ends in a point outside the grid. */
  lemma StoredOutside<T>(a: seq<T>, b: seq<T>, data: seq<nat>)
    requires a == [] && |b| == 2 && data == [0, 0, 1]
    ensures Built(a, b, data, 1, 2) && RowStart(1) + 1 == 2 && data[2] > |a|
  {
    assert RowStart(1) == 1;
    assert Entry(a, b, data, 0, 0);
    assert Entry(a, b, data, 1, 0);
    assert Entry(a, b, data, 1, 1);
  }

  // ---------- Stopping ----------

  /** A stored point past both ends, found before any shorter solution, is the far corner. */
  lemma StopsAtCorner<T>(a: seq<T>, b: seq<T>, d: nat, k: int, x: nat)
    requires Furthest(a, b, d, k, x)
    requires x >= |a| && x - k >= |b|
    requires EditDistance(a, b) >= d
    ensures x == |a| && x - k == |b| && d == EditDistance(a, b)
  {
    BeyondCorner(a, b, x, x - k);
  }

  /** The point at index p, on diagonal k, is not past both ends. */
  ghost predicate ShortOf<T>(a: seq<T>, b: seq<T>, data: seq<nat>, p: nat, k: int) {
    p < |data| && (data[p] < |a| || data[p] - k < |b|)
  }

  /** A row without a point past both ends proves the distance to be larger. */
  lemma RowWithoutCorner<T>(a: seq<T>, b: seq<T>, data: seq<nat>, d: nat)
    requires Built(a, b, data, d, d + 1)
    requires forall i: nat | i <= d :: ShortOf(a, b, data, RowStart(d) + i, 2 * i - d)
    requires EditDistance(a, b) >= d
    ensures EditDistance(a, b) > d
  {
    hide Dist, SlideStart, Slides, RowStart;
    if EditDistance(a, b) == d {
      DistBounds(a, b, |a|, |b|);
      DistParity(a, b, |a|, |b|);
      var k := |a| - |b|;
      assert (d + k) % 2 == 0;
      var i := (d + k) / 2;
      assert Entry(a, b, data, d, i) && ShortOf(a, b, data, RowStart(d) + i, 2 * i - d);
      var x := data[RowStart(d) + i];
      BeyondFurthest(a, b, d, k, x, |a|);
    }
  }

  // ---------- The methods ----------

  datatype Solution = Solution(data: seq<nat>, d: nat, k: int, at: nat)
  datatype BuildResult = Found(triangle: Solution) | DMaxExceeded

  /** The solution is an entry of row d, on diagonal k. */
  ghost predicate Located(t: Solution) {
    RowStart(t.d) <= t.at < |t.data| && t.k == 2 * (t.at - RowStart(t.d)) - t.d <= t.d
  }

  /** The solution found is the far corner, in the row of the edit distance. */
  ghost predicate Solved<T>(a: seq<T>, b: seq<T>, t: Solution) {
    && t.d == EditDistance(a, b)
    && t.k == |a| - |b|
    && Located(t)
    && Built(a, b, t.data, t.d, t.at - RowStart(t.d) + 1)
    && t.data[t.at] == |a|
  }

  /** Follow diagonal k from x0 as far as the strings agree. */
  method Slide<T(==)>(a: seq<T>, b: seq<T>, x0: nat, k: int) returns (x: nat)
    requires x0 - k >= 0
    ensures Slides(a, b, k, x0, x) && !MatchOn(a, b, k, x)
  {
    x := x0;
    var y := x - k;
    while x < |a| && y < |b| && a[x] == b[y]
      invariant y == x - k && Slides(a, b, k, x0, x)
      decreases |a| - x
    {
      assert MatchOn(a, b, k, x);
      x, y := x + 1, y + 1;
    }
  }

  /** The test made when building is the rule by which entries start. */
  lemma BuildRule(data: seq<nat>, d: nat, i: nat)
    requires 1 <= d && i <= d && RowStart(d) <= |data|
    ensures RowStart(d) == RowStart(d - 1) + d
    ensures SlideStart(data, d, i) ==
            var p := RowStart(d - 1) + i;
            if i == 0 || (i != d && data[p - 1] < data[p]) then data[p] else data[p - 1] + 1
  {
  }

  /** Append row d, stopping at the first point past both ends. */
  method BuildRow<T(==)>(a: seq<T>, b: seq<T>, d: nat, vprev0: nat, data0: seq<nat>)
    returns (data: seq<nat>, done: bool, k: int)
    requires 1 <= d && Built(a, b, data0, d, 0) && vprev0 == RowStart(d - 1)
    requires EditDistance(a, b) >= d
    ensures done ==> 0 - d <= k <= d && |data| > 0 && Solved(a, b, Solution(data, d, k, |data| - 1))
    ensures !done ==> Built(a, b, data, d, d + 1) && EditDistance(a, b) > d
    ensures |a| + |b| < INT_MAX ==> Fits32(data)
  {
    hide Dist, Entry, SlideStart, FromRight, Slides, Furthest, RowStart;
    data, done := data0, false;
    k := 0 - d;
    var vprev := vprev0;
    ghost var i := 0;
    RowStartMonotone(d - 1, d);
    while k <= d
      invariant k == 2 * i - d && 0 <= i <= d + 1
      invariant vprev == RowStart(d - 1) + i
      invariant Built(a, b, data, d, i)
      invariant forall j: nat | j < i :: ShortOf(a, b, data, RowStart(d) + j, 2 * j - d)
    {
      var x: nat;
      BuildRule(data, d, i);
      if k == 0 - d || (k != d && data[vprev - 1] < data[vprev]) {
        x := data[vprev];
      } else {
        x := data[vprev - 1] + 1;
      }
      StartWithinReach(a, b, data, d, i);
      x := Slide(a, b, x, k);
      EntryIsFurthest(a, b, data, d, i, x);
      AppendEntry(a, b, data, d, i, x);
      ghost var before := data;
      data := data + [x];
      if x >= |a| && x - k >= |b| {
        StopsAtCorner(a, b, d, k, x);
        done := true;
        RowFits(a, b, data, d, i + 1);
        return;
      }
      forall j: nat | j < i + 1
        ensures ShortOf(a, b, data, RowStart(d) + j, 2 * j - d)
      {
        assert j < i ==> ShortOf(a, b, before, RowStart(d) + j, 2 * j - d);
      }
      k, vprev, i := k + 2, vprev + 1, i + 1;
    }
    RowWithoutCorner(a, b, data, d);
    RowFits(a, b, data, d, d + 1);
  }

  lemma RowFits<T>(a: seq<T>, b: seq<T>, data: seq<nat>, d: nat, n: nat)
    requires Built(a, b, data, d, n) && EditDistance(a, b) >= d
    ensures |a| + |b| < INT_MAX ==> Fits32(data)
  {
    DistBounds(a, b, |a|, |b|);
    if |a| + |b| < INT_MAX {
      BuiltFits(a, b, data, d, n);
    }
  }

  /** Fill the triangle until a point past both ends turns up; d_max < 0 means no limit. */
  method BuildTriangle<T(==)>(a: seq<T>, b: seq<T>, d_max: int) returns (r: BuildResult)
    ensures r.Found? <==> EditDistance(a, b) <= if d_max < 0 then |a| + |b| else d_max
    ensures r.Found? ==> Solved(a, b, r.triangle)
    ensures d_max < 0 ==> r.Found?
    ensures r.Found? && |a| + |b| < INT_MAX ==> Fits32(r.triangle.data)
  {
    DistBounds(a, b, |a|, |b|);
    var dMax := if d_max < 0 then |a| + |b| else d_max;
    var x := Slide(a, b, 0, 0);
    var data: seq<nat> := [x];
    FirstEntry(a, b, x);
    if x >= |a| && x >= |b| {
      StopsAtCorner(a, b, 0, 0, x);
      RowFits(a, b, data, 0, 1);
      return Found(Solution(data, 0, 0, 0));
    }
    assert ShortOf(a, b, data, 0, 0);
    RowWithoutCorner(a, b, data, 0);
    RowFits(a, b, data, 0, 1);
    var vprev, vcur := 0, 1;
    var d := 1;
    while d <= dMax
      invariant 1 <= d && vprev == RowStart(d - 1) && vcur == RowStart(d)
      invariant Built(a, b, data, d, 0)
      invariant EditDistance(a, b) >= d
      invariant |a| + |b| < INT_MAX ==> Fits32(data)
    {
      var done, k;
      data, done, k := BuildRow(a, b, d, vprev, data);
      if done {
        return Found(Solution(data, d, k, |data| - 1));
      }
      NextRow(a, b, data, d);
      vprev := vcur;
      vcur := |data|;
      d := d + 1;
    }
    r := DMaxExceeded;
  }

  lemma FirstEntry<T>(a: seq<T>, b: seq<T>, x: nat)
    requires Slides(a, b, 0, 0, x) && !MatchOn(a, b, 0, x)
    ensures Furthest(a, b, 0, 0, x)
    ensures Built(a, b, [x], 0, 1) && Built(a, b, [x], 1, 0)
  {
    SlideKeepsDist(a, b, 0, 0, x);
    assert Entry(a, b, [x], 0, 0);
  }

  lemma NextRow<T>(a: seq<T>, b: seq<T>, data: seq<nat>, d: nat)
    requires Built(a, b, data, d, d + 1)
    ensures Built(a, b, data, d + 1, 0)
  {
  }

  /** Entry i is right once its x is the end of a slide from where it should start. */
  lemma AppendEntry<T>(a: seq<T>, b: seq<T>, data: seq<nat>, d: nat, i: nat, x: nat)
    requires 1 <= d && i <= d && Built(a, b, data, d, i)
    requires Slides(a, b, 2 * i - d, SlideStart(data, d, i), x)
    requires Furthest(a, b, d, 2 * i - d, x)
    ensures Built(a, b, data + [x], d, i + 1)
  {
    RowStartMonotone(d - 1, d);
    assert SlideStart(data + [x], d, i) == SlideStart(data, d, i);
    assert Entry(a, b, data + [x], d, i);
    BuiltGrows(a, b, data, d, i, x);
  }

  /** Climbing to entry c of row j - 1 from entry c1 of row j: up to the right undoes an
      insertion, up to the left undoes a skip. */
  ghost predicate Climbs(data: seq<nat>, j: nat, c1: nat, c: int) {
    && 1 <= j && c1 <= j && RowStart(j) <= |data|
    && c == if FromRight(data, j, c1) then c1 else c1 - 1
  }

  /** The turns of a walk down the triangle, -1 for left and 1 for right; it passes through
      entry cs[j] of row j. */
  ghost predicate Descent(t: Solution, descent: seq<int>, cs: seq<nat>) {
    && |descent| == t.d + 1 && |cs| == t.d + 1
    && descent[t.d] == 0
    && cs[0] == 0 && RowStart(t.d) + cs[t.d] == t.at
    && (forall j: nat | 1 <= j <= t.d :: Climbs(t.data, j, cs[j], cs[j - 1]))
    && (forall j: nat | j < t.d :: descent[j] == if cs[j + 1] == cs[j] then -1 else 1)
  }

  /** The test made when climbing is the rule by which the rows were built. */
  lemma ClimbRule(data: seq<nat>, d: nat, c: nat)
    requires 1 <= d && c <= d && RowStart(d) + c < |data|
    ensures RowStart(d) == RowStart(d - 1) + d
    ensures FromRight(data, d, c) <==>
            c == 0 || (c != d && data[RowStart(d) + c - d - 1] < data[RowStart(d) + c - d])
  {
  }

  /** Climb from the solution back to the top, noting the turns for the way down. */
  method ClimbTriangle(t: Solution) returns (descent: array<int>, ghost cs: seq<nat>)
    requires Located(t)
    ensures Descent(t, descent[..], cs)
  {
    hide FromRight, RowStart;
    descent := new int[t.d + 1];
    var d, k, p := t.d, t.k, t.at;
    descent[d] := 0;
    ghost var c := t.at - RowStart(t.d);
    cs := seq(t.d + 1, _ => c);
    while d > 0
      invariant d <= t.d && c <= d && k == 2 * c - d
      invariant p == RowStart(d) + c && p < |t.data|
      invariant descent[t.d] == 0 && |cs| == t.d + 1 && RowStart(t.d) + cs[t.d] == t.at && cs[d] == c
      invariant forall j: nat | d < j <= t.d :: Climbs(t.data, j, cs[j], cs[j - 1])
      invariant forall j: nat | d <= j < t.d :: descent[j] == if cs[j + 1] == cs[j] then -1 else 1
    {
      ghost var c1 := c;
      ClimbRule(t.data, d, c);
      if k == 0 - d || (k != d && t.data[p - d - 1] < t.data[p - d]) {
        k := k + 1;
        p := p - d;
        d := d - 1;
        descent[d] := -1;
      } else {
        k := k - 1;
        p := p - d - 1;
        d := d - 1;
        descent[d] := 1;
        c := c - 1;
      }
      assert Climbs(t.data, d + 1, c1, c);
      cs := cs[d := c];
    }
  }
}
