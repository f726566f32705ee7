/** The edit grid of two strings, over which bdelta searches for a shortest edit script.

A point (x, y) stands for the prefixes old[..x] and new[..y].  A step right skips one
element of old, a step down inserts one element of new, and a diagonal step copies an
element that the two strings share.  The grid is unbounded: outside the two strings
there are simply no diagonal steps. */
module EditGrid {

  predicate Match<T(==)>(a: seq<T>, b: seq<T>, x: nat, y: nat) {
    x < |a| && y < |b| && a[x] == b[y]
  }

  function Min(p: nat, q: nat): nat {
    if p <= q then p else q
  }

  /** The least number of steps right and down on a walk from (0, 0) to (x, y). */
  function Dist<T(==)>(a: seq<T>, b: seq<T>, x: nat, y: nat): nat
    decreases x + y
  {
    if x == 0 then y
    else if y == 0 then x
    else if Match(a, b, x - 1, y - 1) then Dist(a, b, x - 1, y - 1)
    else 1 + Min(Dist(a, b, x - 1, y), Dist(a, b, x, y - 1))
  }

  // ---------- Geometry of Dist ----------

  ghost predicate NearBy<T>(a: seq<T>, b: seq<T>, x: nat, y: nat) {
    && Dist(a, b, x + 1, y) <= Dist(a, b, x, y) + 1
    && Dist(a, b, x, y) <= Dist(a, b, x + 1, y) + 1
    && Dist(a, b, x, y + 1) <= Dist(a, b, x, y) + 1
    && Dist(a, b, x, y) <= Dist(a, b, x, y + 1) + 1
  }

  lemma {:induction false} Neighbours<T>(a: seq<T>, b: seq<T>, x: nat, y: nat)
    ensures NearBy(a, b, x, y)
    decreases x + y
  {
    if x > 0 {
      Neighbours(a, b, x - 1, y);
    }
    if y > 0 {
      Neighbours(a, b, x, y - 1);
    }
  }

  lemma DistOfMismatch<T>(a: seq<T>, b: seq<T>, x: nat, y: nat)
    requires !Match(a, b, x, y)
    ensures Dist(a, b, x + 1, y + 1) == 1 + Min(Dist(a, b, x, y + 1), Dist(a, b, x + 1, y))
  {
  }

  /** Along a diagonal the distance never falls. */
  lemma DiagonalStep<T>(a: seq<T>, b: seq<T>, x: nat, y: nat)
    ensures Dist(a, b, x, y) <= Dist(a, b, x + 1, y + 1)
  {
    Neighbours(a, b, x, y);
  }

  lemma {:induction false} DiagonalMonotone<T>(a: seq<T>, b: seq<T>, x: nat, y: nat, n: nat)
    ensures Dist(a, b, x, y) <= Dist(a, b, x + n, y + n)
    decreases n
  {
    if n > 0 {
      DiagonalMonotone(a, b, x, y, n - 1);
      DiagonalStep(a, b, x + n - 1, y + n - 1);
    }
  }

  /** A point is at least as far away as its diagonal's offset, and as the part of the walk
      that lies outside the strings; it is never farther than x + y. */
  lemma {:induction false} DistBounds<T>(a: seq<T>, b: seq<T>, x: nat, y: nat)
    ensures x - y <= Dist(a, b, x, y) && y - x <= Dist(a, b, x, y)
    ensures Dist(a, b, x, y) <= x + y
    ensures x - |a| <= Dist(a, b, x, y) && y - |b| <= Dist(a, b, x, y)
    decreases x + y
  {
    if x > 0 && y > 0 {
      DistBounds(a, b, x - 1, y - 1);
      DistBounds(a, b, x - 1, y);
      DistBounds(a, b, x, y - 1);
    }
  }

  ghost predicate SameParity(p: int, q: int) {
    (p - q) % 2 == 0
  }

  lemma {:induction false} DistParity<T>(a: seq<T>, b: seq<T>, x: nat, y: nat)
    ensures SameParity(Dist(a, b, x, y), x + y)
    decreases x + y
  {
    if x > 0 && y > 0 {
      DistParity(a, b, x - 1, y - 1);
      DistParity(a, b, x - 1, y);
      DistParity(a, b, x, y - 1);
    }
  }

  /** Beyond the far corner every step costs one. */
  lemma {:induction false} BeyondCorner<T>(a: seq<T>, b: seq<T>, x: nat, y: nat)
    requires x >= |a| && y >= |b|
    ensures Dist(a, b, x, y) == Dist(a, b, |a|, |b|) + (x - |a|) + (y - |b|)
    decreases x + y
  {
    if x > |a| && y > |b| {
      BeyondCorner(a, b, x - 1, y);
      BeyondCorner(a, b, x, y - 1);
    } else if x > |a| {
      AlongBottom(a, b, x);
    } else if y > |b| {
      AlongRight(a, b, y);
    }
  }

  lemma {:induction false} AlongBottom<T>(a: seq<T>, b: seq<T>, x: nat)
    requires x >= |a|
    ensures Dist(a, b, x, |b|) == Dist(a, b, |a|, |b|) + (x - |a|)
  {
    if x > |a| {
      AlongBottom(a, b, x - 1);
      OutsideColumn(a, b, x, |b|);
    }
  }

  lemma {:induction false} OutsideColumn<T>(a: seq<T>, b: seq<T>, x: nat, y: nat)
    requires x > |a|
    ensures Dist(a, b, x, y) == 1 + Dist(a, b, x - 1, y)
    decreases y
  {
    if y > 0 {
      OutsideColumn(a, b, x, y - 1);
      Neighbours(a, b, x - 1, y - 1);
    }
  }

  lemma {:induction false} AlongRight<T>(a: seq<T>, b: seq<T>, y: nat)
    requires y >= |b|
    ensures Dist(a, b, |a|, y) == Dist(a, b, |a|, |b|) + (y - |b|)
  {
    if y > |b| {
      AlongRight(a, b, y - 1);
      OutsideRow(a, b, |a|, y);
    }
  }

  lemma {:induction false} OutsideRow<T>(a: seq<T>, b: seq<T>, x: nat, y: nat)
    requires y > |b|
    ensures Dist(a, b, x, y) == 1 + Dist(a, b, x, y - 1)
    decreases x
  {
    if x > 0 {
      OutsideRow(a, b, x - 1, y);
      Neighbours(a, b, x - 1, y - 1);
    }
  }

  // ---------- Dist is the length of a shortest edit script ----------

  datatype Edit<T> = Copy | Skip | Insert(c: T)

  /** Script s, read to its end, turns old into new. */
  ghost predicate Transforms<T>(s: seq<Edit<T>>, a: seq<T>, b: seq<T>) {
    if s == [] then a == [] && b == []
    else
      var rest, x, y := s[..|s| - 1], |a| - 1, |b| - 1;
      match s[|s| - 1]
      case Copy => x >= 0 && y >= 0 && a[x] == b[y] && Transforms(rest, a[..x], b[..y])
      case Skip => x >= 0 && Transforms(rest, a[..x], b)
      case Insert(c) => y >= 0 && b[y] == c && Transforms(rest, a, b[..y])
  }

  /** The number of insertions and deletions. */
  ghost function Edits<T>(s: seq<Edit<T>>): nat {
    if s == [] then 0
    else Edits(s[..|s| - 1]) + if s[|s| - 1].Copy? then 0 else 1
  }

  lemma {:induction false} DistOfPrefixes<T>(a: seq<T>, b: seq<T>, x: nat, y: nat, m: nat, n: nat)
    requires x <= m <= |a| && y <= n <= |b|
    ensures Dist(a[..m], b[..n], x, y) == Dist(a, b, x, y)
    decreases x + y
  {
    if x > 0 && y > 0 {
      DistOfPrefixes(a, b, x - 1, y - 1, m, n);
      DistOfPrefixes(a, b, x - 1, y, m, n);
      DistOfPrefixes(a, b, x, y - 1, m, n);
    }
  }

  /** The distance between two whole strings. */
  ghost function EditDistance<T>(a: seq<T>, b: seq<T>): nat {
    Dist(a, b, |a|, |b|)
  }

  /** No edit script is shorter than the distance. */
  lemma {:induction false} NoShorterScript<T>(s: seq<Edit<T>>, a: seq<T>, b: seq<T>)
    requires Transforms(s, a, b)
    ensures EditDistance(a, b) <= Edits(s)
    decreases |s|
  {
    if s != [] {
      var rest, x, y := s[..|s| - 1], |a| - 1, |b| - 1;
      match s[|s| - 1]
      case Copy =>
        NoShorterScript(rest, a[..x], b[..y]);
        DistOfPrefixes(a, b, x, y, x, y);
      case Skip =>
        NoShorterScript(rest, a[..x], b);
        DistOfPrefixes(a, b, x, y + 1, x, y + 1);
        assert b[..y + 1] == b;
        Neighbours(a, b, x, y + 1);
      case Insert(c) =>
        NoShorterScript(rest, a, b[..y]);
        DistOfPrefixes(a, b, x + 1, y, x + 1, y);
        assert a[..x + 1] == a;
        Neighbours(a, b, x + 1, y);
    }
  }

  /** Some edit script is exactly as short as the distance. */
  lemma {:induction false} SomeScript<T>(a: seq<T>, b: seq<T>) returns (s: seq<Edit<T>>)
    ensures Transforms(s, a, b) && Edits(s) == EditDistance(a, b)
    decreases |a| + |b|
  {
    var x, y := |a| - 1, |b| - 1;
    if x < 0 && y < 0 {
      s := [];
      return;
    }
    assert x >= 0 ==> a[..x + 1] == a;
    assert y >= 0 ==> b[..y + 1] == b;
    var rest;
    if x >= 0 && y >= 0 && a[x] == b[y] {
      rest := SomeScript(a[..x], b[..y]);
      DistOfPrefixes(a, b, x, y, x, y);
      s := rest + [Copy];
    } else if y < 0 || (x >= 0 && Dist(a, b, x, y + 1) <= Dist(a, b, x + 1, y)) {
      rest := SomeScript(a[..x], b);
      DistOfPrefixes(a, b, x, y + 1, x, y + 1);
      s := rest + [Skip];
    } else {
      rest := SomeScript(a, b[..y]);
      DistOfPrefixes(a, b, x + 1, y, x + 1, y);
      s := rest + [Insert(b[y])];
    }
    assert s[..|s| - 1] == rest;
  }

  // ---------- Dist and the longest common subsequence ----------

  ghost predicate Subsequence<T>(c: seq<T>, a: seq<T>) {
    if c == [] then true
    else if a == [] then false
    else
      || (c[|c| - 1] == a[|a| - 1] && Subsequence(c[..|c| - 1], a[..|a| - 1]))
      || Subsequence(c, a[..|a| - 1])
  }

  lemma {:induction false} SubsequenceInit<T>(c: seq<T>, a: seq<T>)
    requires c != [] && Subsequence(c, a)
    ensures a != [] && Subsequence(c[..|c| - 1], a[..|a| - 1])
    decreases |a|
  {
    var c', a' := c[..|c| - 1], a[..|a| - 1];
    if !Subsequence(c', a') {
      SubsequenceInit(c, a');
      if c' != [] {
        SubsequenceGrow(c', a');
      }
    }
  }

  lemma {:induction false} SubsequenceGrow<T>(c: seq<T>, a: seq<T>)
    requires a != [] && Subsequence(c, a[..|a| - 1])
    ensures Subsequence(c, a)
  {
  }

  /** |old| + |new| - 2 * LCS: every common subsequence c leaves at least that many edits. */
  lemma {:induction false} CommonSubsequenceBound<T>(c: seq<T>, a: seq<T>, b: seq<T>)
    requires Subsequence(c, a) && Subsequence(c, b)
    ensures EditDistance(a, b) <= |a| + |b| - 2 * |c|
    decreases |a| + |b|
  {
    var x, y := |a| - 1, |b| - 1;
    DistBounds(a, b, |a|, |b|);
    if c != [] {
      assert a[..x + 1] == a && b[..y + 1] == b;
      if a[x] == b[y] {
        SubsequenceInit(c, a);
        SubsequenceInit(c, b);
        CommonSubsequenceBound(c[..|c| - 1], a[..x], b[..y]);
        DistOfPrefixes(a, b, x, y, x, y);
      } else if Subsequence(c, a[..x]) {
        CommonSubsequenceBound(c, a[..x], b);
        DistOfPrefixes(a, b, x, y + 1, x, y + 1);
      } else {
        CommonSubsequenceBound(c, a, b[..y]);
        DistOfPrefixes(a, b, x + 1, y, x + 1, y);
      }
    }
  }

  /** Some common subsequence leaves exactly that many. */
  lemma {:induction false} SomeCommonSubsequence<T>(a: seq<T>, b: seq<T>) returns (c: seq<T>)
    ensures Subsequence(c, a) && Subsequence(c, b)
    ensures EditDistance(a, b) == |a| + |b| - 2 * |c|
    decreases |a| + |b|
  {
    c := [];
    var x, y := |a| - 1, |b| - 1;
    if x >= 0 && y >= 0 {
      assert a[..x + 1] == a && b[..y + 1] == b;
      if a[x] == b[y] {
        c := SomeCommonSubsequence(a[..x], b[..y]);
        DistOfPrefixes(a, b, x, y, x, y);
        c := c + [a[x]];
        assert c[..|c| - 1] + [a[x]] == c;
      } else if Dist(a, b, x, y + 1) <= Dist(a, b, x + 1, y) {
        c := SomeCommonSubsequence(a[..x], b);
        DistOfPrefixes(a, b, x, y + 1, x, y + 1);
        SubsequenceGrow(c, a);
      } else {
        c := SomeCommonSubsequence(a, b[..y]);
        DistOfPrefixes(a, b, x + 1, y, x + 1, y);
        SubsequenceGrow(c, b);
      }
    }
  }
}
