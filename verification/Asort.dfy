/** The non-recursive quicksort: partitions down to five elements, an explicit stack of 64
entries, and an insertion sort whose inner scan has no bounds check. */
module Asort {
  import opened Basics
  import opened Orders

  const MAX_THRESH := 4
  const STACK_SIZE := 64

  /** Elements never descend from left to right. */
  ghost predicate Sorted<T>(cmp: (T, T) -> int, s: seq<T>) {
    forall i, j | 0 <= i < j < |s| :: cmp(s[i], s[j]) <= 0
  }

  /** Nothing before position c exceeds anything from c on. */
  ghost predicate Boundary<T>(cmp: (T, T) -> int, s: seq<T>, c: int) {
    forall i, j | 0 <= i < c && c <= j < |s| :: cmp(s[i], s[j]) <= 0
  }

  /** t is s with the elements from lo up to hi in another order. */
  ghost predicate Rearranged<T>(s: seq<T>, t: seq<T>, lo: int, hi: int) {
    && 0 <= lo <= hi <= |s| == |t|
    && (forall k | 0 <= k < lo || hi <= k < |s| :: t[k] == s[k])
    && multiset(t[lo..hi]) == multiset(s[lo..hi])
  }

  lemma SameRearranged<T>(s: seq<T>, lo: int, hi: int)
    requires 0 <= lo <= hi <= |s|
    ensures Rearranged(s, s, lo, hi)
  {
  }

  lemma RearrangedTwice<T>(s: seq<T>, t: seq<T>, u: seq<T>, lo: int, hi: int)
    requires Rearranged(s, t, lo, hi) && Rearranged(t, u, lo, hi)
    ensures Rearranged(s, u, lo, hi)
  {
  }

  lemma Swapped<T>(s: seq<T>, i: int, j: int, lo: int, hi: int)
    requires 0 <= lo <= i < hi <= |s| && lo <= j < hi
    ensures Rearranged(s, s[i := s[j]][j := s[i]], lo, hi)
  {
    var t := s[i := s[j]][j := s[i]];
    var m, n := s[lo..hi], t[lo..hi];
    assert n == m[i - lo := m[j - lo]][j - lo := m[i - lo]];
  }

  lemma WholeRearranged<T>(s: seq<T>, t: seq<T>, lo: int, hi: int)
    requires Rearranged(s, t, lo, hi)
    ensures multiset(t) == multiset(s)
  {
    assert s == s[..lo] + s[lo..hi] + s[hi..];
    assert t == s[..lo] + t[lo..hi] + s[hi..];
  }

  /** Every element of the rearranged part was somewhere in it before. */
  lemma OldPlace<T>(s: seq<T>, t: seq<T>, lo: int, hi: int, k: int) returns (k': int)
    requires Rearranged(s, t, lo, hi) && 0 <= k < |s|
    ensures 0 <= k' < |s| && s[k'] == t[k]
    ensures k < lo || k >= hi ==> k' == k
    ensures lo <= k < hi ==> lo <= k' < hi
  {
    if lo <= k < hi {
      assert t[lo..hi][k - lo] in multiset(s[lo..hi]);
      var i :| 0 <= i < hi - lo && s[lo..hi][i] == t[k];
      k' := lo + i;
    } else {
      k' := k;
    }
  }

  /** Rearranging between two cuts keeps them, and every cut outside. */
  lemma CutKept<T>(cmp: (T, T) -> int, s: seq<T>, t: seq<T>, lo: int, hi: int, c: int)
    requires Rearranged(s, t, lo, hi) && Boundary(cmp, s, c) && (c <= lo || hi <= c)
    ensures Boundary(cmp, t, c)
  {
    forall i, j | 0 <= i < c && c <= j < |t|
      ensures cmp(t[i], t[j]) <= 0
    {
      var i' := OldPlace(s, t, lo, hi, i);
      var j' := OldPlace(s, t, lo, hi, j);
    }
  }

  /** A cut of the part between two cuts is a cut of the whole. */
  lemma CutInside<T>(cmp: (T, T) -> int, s: seq<T>, lo: int, hi: int, c: int)
    requires 0 <= lo <= c <= hi <= |s| && Boundary(cmp, s, lo) && Boundary(cmp, s, hi)
    requires forall i, j | lo <= i < c && c <= j < hi :: cmp(s[i], s[j]) <= 0
    ensures Boundary(cmp, s, c)
  {
  }

  method Swap<T>(a: array<T>, i: int, j: int, ghost lo: int, ghost hi: int)
    requires 0 <= lo <= i < hi <= a.Length && lo <= j < hi
    modifies a
    ensures a[i] == old(a[j]) && a[j] == old(a[i])
    ensures forall k | 0 <= k < a.Length && k != i && k != j :: a[k] == old(a[k])
    ensures Rearranged(old(a[..]), a[..], lo, hi)
  {
    hide Rearranged;
    Swapped(a[..], i, j, lo, hi);
    ghost var t := a[..][i := a[j]][j := a[i]];
    a[i], a[j] := a[j], a[i];
    assert a[..] == t;
  }

  /** Put the elements at i and j in order. */
  method PutInOrder<T(!new)>(cmp: (T, T) -> int, a: array<T>, i: int, j: int, ghost s: seq<T>, ghost lo: int,
                             ghost hi: int) returns (swapped: bool)
    requires TotalPreorder(cmp) && 0 <= lo <= i < j < hi <= a.Length && Rearranged(s, a[..], lo, hi)
    modifies a
    ensures cmp(a[i], a[j]) <= 0
    ensures swapped ==> a[i] == old(a[j]) && a[j] == old(a[i])
    ensures !swapped ==> a[i] == old(a[i]) && a[j] == old(a[j])
    ensures forall k | 0 <= k < a.Length && k != i && k != j :: a[k] == old(a[k])
    ensures Rearranged(s, a[..], lo, hi)
  {
    hide TotalPreorder, Rearranged;
    ghost var t := a[..];
    Opposite(cmp, a[i], a[j]);
    swapped := cmp(a[j], a[i]) < 0;
    if swapped {
      Swap(a, j, i, lo, hi);
      RearrangedTwice(s, t, a[..], lo, hi);
    }
  }

  /** Sort the elements at lo, mid and hi among themselves. */
  method MedianOfThree<T(!new)>(cmp: (T, T) -> int, a: array<T>, lo: int, mid: int, hi: int)
    requires TotalPreorder(cmp) && 0 <= lo < mid < hi < a.Length
    modifies a
    ensures cmp(a[lo], a[mid]) <= 0 && cmp(a[mid], a[hi]) <= 0
    ensures Rearranged(old(a[..]), a[..], lo, hi + 1)
  {
    hide TotalPreorder, Rearranged;
    ghost var s := a[..];
    SameRearranged(s, lo, hi + 1);
    var _ := PutInOrder(cmp, a, lo, mid, s, lo, hi + 1);
    var swapped := PutInOrder(cmp, a, mid, hi, s, lo, hi + 1);
    if swapped {
      var _ := PutInOrder(cmp, a, lo, mid, s, lo, hi + 1);
    }
  }

  /** No element from lo up to hi exceeds p; no element from lo up to hi is below p. */
  ghost predicate AtMost<T>(cmp: (T, T) -> int, s: seq<T>, lo: int, hi: int, p: T) {
    forall k | 0 <= lo <= k < hi <= |s| :: cmp(s[k], p) <= 0
  }

  ghost predicate AtLeast<T>(cmp: (T, T) -> int, s: seq<T>, lo: int, hi: int, p: T) {
    forall k | 0 <= lo <= k < hi <= |s| :: cmp(p, s[k]) <= 0
  }

  lemma AtMostMore<T>(cmp: (T, T) -> int, s: seq<T>, lo: int, hi: int, p: T)
    requires 0 <= lo <= hi < |s| && AtMost(cmp, s, lo, hi, p) && cmp(s[hi], p) <= 0
    ensures AtMost(cmp, s, lo, hi + 1, p)
  {
  }

  lemma AtLeastMore<T>(cmp: (T, T) -> int, s: seq<T>, lo: int, hi: int, p: T)
    requires 0 < lo <= hi <= |s| && AtLeast(cmp, s, lo, hi, p) && cmp(p, s[lo - 1]) <= 0
    ensures AtLeast(cmp, s, lo - 1, hi, p)
  {
  }

  /** Elements that do not exceed p stop the scan for elements above p, and the other way round. */
  lemma Stops<T(!new)>(cmp: (T, T) -> int, s: seq<T>, lo: int, hi: int, k: int, p: T)
    requires TotalPreorder(cmp) && 0 <= lo <= k < hi <= |s|
    ensures AtMost(cmp, s, lo, hi, p) ==> cmp(p, s[k]) >= 0
    ensures AtLeast(cmp, s, lo, hi, p) ==> cmp(s[k], p) >= 0
    ensures cmp(s[k], p) >= 0 ==> cmp(p, s[k]) <= 0
    ensures cmp(p, s[k]) >= 0 ==> cmp(s[k], p) <= 0
  {
    hide TotalPreorder;
    Opposite(cmp, s[k], p);
  }

  lemma BoundsKept<T>(cmp: (T, T) -> int, s: seq<T>, t: seq<T>, lo: int, left: int, right: int, hi: int, p: T)
    requires 0 <= lo <= left <= right < hi <= |s| == |t|
    requires forall k | 0 <= k < |s| && k != left && k != right :: t[k] == s[k]
    ensures AtMost(cmp, s, lo, left, p) ==> AtMost(cmp, t, lo, left, p)
    ensures AtLeast(cmp, s, right + 1, hi, p) ==> AtLeast(cmp, t, right + 1, hi, p)
  {
  }

  /** The scan for an element that is not below the pivot goes at most one past right. */
  method ScanUp<T(!new)>(cmp: (T, T) -> int, a: array<T>, lo: int, start: int, right: int, hi: int,
                         mid: int) returns (left: int)
    requires TotalPreorder(cmp) && 0 <= lo < start <= right < hi < a.Length && lo <= mid <= hi
    requires AtMost(cmp, a[..], lo, start, a[mid]) && AtLeast(cmp, a[..], right + 1, hi + 1, a[mid])
    ensures start <= left <= right + 1
    ensures AtMost(cmp, a[..], lo, left, a[mid]) && cmp(a[mid], a[left]) <= 0
  {
    hide TotalPreorder, AtMost, AtLeast;
    left := start;
    ghost var t, p := a[..], a[mid];
    while cmp(a[left], a[mid]) < 0
      invariant start <= left <= right + 1 && a[..] == t
      invariant AtMost(cmp, t, lo, left, p)
      decreases hi - left
    {
      if left == right + 1 {
        Stops(cmp, t, right + 1, hi + 1, left, p);
        assert false;
      }
      AtMostMore(cmp, t, lo, left, p);
      left := left + 1;
    }
    Stops(cmp, t, left, left + 1, left, p);
  }

  method ScanDown<T(!new)>(cmp: (T, T) -> int, a: array<T>, lo: int, left: int, start: int, hi: int,
                           mid: int) returns (right: int)
    requires TotalPreorder(cmp) && 0 <= lo < left <= start + 1 && start < hi < a.Length && lo <= mid <= hi
    requires AtMost(cmp, a[..], lo, left, a[mid]) && AtLeast(cmp, a[..], start + 1, hi + 1, a[mid])
    ensures left - 1 <= right <= start
    ensures AtLeast(cmp, a[..], right + 1, hi + 1, a[mid]) && cmp(a[right], a[mid]) <= 0
  {
    hide TotalPreorder, AtMost, AtLeast;
    right := start;
    ghost var t, p := a[..], a[mid];
    while cmp(a[mid], a[right]) < 0
      invariant left - 1 <= right <= start && a[..] == t
      invariant AtLeast(cmp, t, right + 1, hi + 1, p)
      decreases right - lo
    {
      if right == left - 1 {
        Stops(cmp, t, lo, left, right, p);
        assert false;
      }
      AtLeastMore(cmp, t, right + 1, hi + 1, p);
      right := right - 1;
    }
    Stops(cmp, t, right, right + 1, right, p);
  }

  /** Exchange the two elements found; the pivot may be one of them. */
  method SwapWalls<T>(cmp: (T, T) -> int, a: array<T>, lo: int, left: int, right: int, hi: int,
                      mid: int) returns (mid': int)
    requires 0 <= lo < left < right < hi < a.Length && lo <= mid <= hi
    requires AtMost(cmp, a[..], lo, left, a[mid]) && AtLeast(cmp, a[..], right + 1, hi + 1, a[mid])
    requires cmp(a[mid], a[left]) <= 0 && cmp(a[right], a[mid]) <= 0
    modifies a
    ensures lo <= mid' <= hi && a[mid'] == old(a[mid])
    ensures AtMost(cmp, a[..], lo, left + 1, a[mid']) && AtLeast(cmp, a[..], right, hi + 1, a[mid'])
    ensures Rearranged(old(a[..]), a[..], lo, hi + 1)
  {
    hide Rearranged, AtMost, AtLeast;
    ghost var t, p := a[..], a[mid];
    Swap(a, left, right, lo, hi + 1);
    BoundsKept(cmp, t, a[..], lo, left, right, hi + 1, p);
    AtMostMore(cmp, a[..], lo, left, p);
    AtLeastMore(cmp, a[..], right + 1, hi + 1, p);
    mid' := if mid == left then right else if mid == right then left else mid;
  }

  /** Move the walls towards each other, keeping what does not exceed the pivot to the left and
      what is not below it to the right.  The scans stay between lo and hi. */
  method CollapseWalls<T(!new)>(cmp: (T, T) -> int, a: array<T>, lo: int, pivot: int, hi: int)
    returns (left: int, right: int)
    requires TotalPreorder(cmp) && 0 <= lo < pivot < hi < a.Length
    requires cmp(a[lo], a[pivot]) <= 0 && cmp(a[pivot], a[hi]) <= 0
    modifies a
    ensures lo <= right < left <= hi && left <= right + 2
    ensures AtMost(cmp, a[..], lo, left, old(a[pivot])) && AtLeast(cmp, a[..], right + 1, hi + 1, old(a[pivot]))
    ensures Rearranged(old(a[..]), a[..], lo, hi + 1)
  {
    hide TotalPreorder, Rearranged, AtMost, AtLeast;
    ghost var s, p := a[..], a[pivot];
    SameRearranged(s, lo, hi + 1);
    var mid := pivot;
    left, right := lo + 1, hi - 1;
    WallsStart(cmp, s, lo, hi, p);
    while true
      invariant lo < left <= right < hi
      invariant lo <= mid <= hi && a[mid] == p
      invariant AtMost(cmp, a[..], lo, left, p) && AtLeast(cmp, a[..], right + 1, hi + 1, p)
      invariant Rearranged(s, a[..], lo, hi + 1)
      decreases right - left
    {
      ghost var t := a[..];
      left := ScanUp(cmp, a, lo, left, right, hi, mid);
      right := ScanDown(cmp, a, lo, left, right, hi, mid);
      if left < right {
        mid := SwapWalls(cmp, a, lo, left, right, hi, mid);
        RearrangedTwice(s, t, a[..], lo, hi + 1);
        left, right := left + 1, right - 1;
      } else if left == right {
        AtMostMore(cmp, t, lo, left, p);
        AtLeastMore(cmp, t, right + 1, hi + 1, p);
        left, right := left + 1, right - 1;
        break;
      }
      if left > right {
        break;
      }
    }
  }

  lemma WallsStart<T>(cmp: (T, T) -> int, s: seq<T>, lo: int, hi: int, p: T)
    requires 0 <= lo < hi < |s| && cmp(s[lo], p) <= 0 && cmp(p, s[hi]) <= 0
    ensures AtMost(cmp, s, lo, lo + 1, p) && AtLeast(cmp, s, hi, hi + 1, p)
  {
  }

  /** Split the elements from lo to hi around a median of three.  Both parts are smaller than
      the whole; an element between the parts belongs to both. */
  method Partition<T(!new)>(cmp: (T, T) -> int, a: array<T>, lo: int, hi: int) returns (left: int, right: int)
    requires TotalPreorder(cmp) && 0 <= lo && lo + 2 <= hi < a.Length
    modifies a
    ensures lo <= right < left <= hi && left <= right + 2
    ensures forall i, j | lo <= i <= right && right < j <= hi :: cmp(a[i], a[j]) <= 0
    ensures forall i, j | lo <= i < left && left <= j <= hi :: cmp(a[i], a[j]) <= 0
    ensures Rearranged(old(a[..]), a[..], lo, hi + 1)
  {
    hide TotalPreorder, Rearranged;
    ghost var s := a[..];
    var mid := lo + (hi - lo) / 2;
    MedianOfThree(cmp, a, lo, mid, hi);
    ghost var t, p := a[..], a[mid];
    left, right := CollapseWalls(cmp, a, lo, mid, hi);
    RearrangedTwice(s, t, a[..], lo, hi + 1);
    forall i, j | lo <= i < left && right < j <= hi
      ensures cmp(a[i], a[j]) <= 0
    {
      assert cmp(a[..][i], p) <= 0 && cmp(p, a[..][j]) <= 0;
      Transitive(cmp, a[i], p, a[j]);
    }
  }

  // ---------- The explicit stack ----------

  /** The first and the last position of a part still to be partitioned. */
  type Part = (int, int)

  function Size(e: Part): int {
    e.1 - e.0 + 1
  }

  ghost predicate AllCuts<T>(cmp: (T, T) -> int, s: seq<T>, cuts: set<int>) {
    forall c | c in cuts :: Boundary(cmp, s, c)
  }

  /** A part lies between two cuts and has none inside. */
  ghost predicate Uncut(e: Part, cuts: set<int>, n: nat) {
    && 0 <= e.0 && e.0 + MAX_THRESH <= e.1 < n
    && e.0 in cuts && e.1 + 1 in cuts && forall c | c in cuts :: !(e.0 < c <= e.1)
  }

  ghost predicate Pending(todo: seq<Part>, cuts: set<int>, n: nat) {
    && (forall k | 0 <= k < |todo| :: Uncut(todo[k], cuts, n))
    && (forall k, l | 0 <= k < l < |todo| :: todo[k].1 < todo[l].0 || todo[l].1 < todo[k].0)
  }

  ghost predicate CutBetween(cuts: set<int>, i: int, j: int) {
    exists c :: c in cuts && i < c <= j
  }

  ghost predicate InPart(todo: seq<Part>, i: int, j: int) {
    exists k :: 0 <= k < |todo| && todo[k].0 <= i && j <= todo[k].1
  }

  /** Positions more than four apart are cut from each other or still to be. */
  ghost predicate Covered(todo: seq<Part>, cuts: set<int>, n: nat) {
    forall i, j | 0 <= i && i + MAX_THRESH < j < n :: CutBetween(cuts, i, j) || InPart(todo, i, j)
  }

  /** Each part on the stack is at most half of what the part below it was cut from. */
  ghost predicate Halving(todo: seq<Part>, n: nat) {
    forall k: nat | k < |todo| :: Fit(todo[k], k, n)
  }

  ghost predicate Fit(e: Part, k: nat, n: nat) {
    Size(e) * Pow2(k) <= n
  }

  ghost function Work(todo: seq<Part>): int {
    if todo == [] then 0 else Work(todo[..|todo| - 1]) + 2 * Size(todo[|todo| - 1]) - 1
  }

  lemma WorkLast(todo: seq<Part>, e: Part)
    ensures Work(todo + [e]) == Work(todo) + 2 * Size(e) - 1
  {
    assert (todo + [e])[..|todo|] == todo;
  }

  lemma {:induction false} WorkNatural(todo: seq<Part>, cuts: set<int>, n: nat)
    requires Pending(todo, cuts, n)
    ensures Work(todo) >= 0
  {
    if todo != [] {
      assert Uncut(todo[|todo| - 1], cuts, n);
      WorkNatural(todo[..|todo| - 1], cuts, n);
    }
  }

  /** What becomes of the part from lo to hi: those of its two halves that are still large. */
  ghost predicate Halves(parts: seq<Part>, lo: int, right: int, left: int, hi: int) {
    && (forall k | 0 <= k < |parts| :: parts[k] == (lo, right) || parts[k] == (left, hi))
    && (forall k | 0 <= k < |parts| :: parts[k].1 - parts[k].0 > MAX_THRESH)
    && (|parts| == 2 ==> parts[0] != parts[1]) && |parts| <= 2
    && (right - lo > MAX_THRESH ==> (lo, right) in parts)
    && (hi - left > MAX_THRESH ==> (left, hi) in parts)
  }

  lemma PendingAfter(todo: seq<Part>, cuts: set<int>, n: nat, parts: seq<Part>, lo: int, right: int, left: int, hi: int)
    requires Pending(todo + [(lo, hi)], cuts, n)
    requires lo <= right < left <= hi && left <= right + 2
    requires Halves(parts, lo, right, left, hi)
    ensures Pending(todo + parts, cuts + {right + 1, left}, n)
  {
    var was, now, cuts' := todo + [(lo, hi)], todo + parts, cuts + {right + 1, left};
    assert was[|todo|] == (lo, hi) && Uncut(was[|todo|], cuts, n);
    forall k | 0 <= k < |todo|
      ensures Uncut(todo[k], cuts', n) && (todo[k].1 < lo || hi < todo[k].0)
    {
      assert was[k] == todo[k] && Uncut(was[k], cuts, n);
    }
    forall k | 0 <= k < |now|
      ensures Uncut(now[k], cuts', n)
    {
      if k >= |todo| {
        assert now[k] == parts[k - |todo|];
      } else {
        assert now[k] == todo[k];
      }
    }
    assert forall k | 0 <= k < |parts| :: lo <= parts[k].0 && parts[k].1 <= hi;
    hide Uncut;
    forall k, l | 0 <= k < l < |now|
      ensures now[k].1 < now[l].0 || now[l].1 < now[k].0
    {
      if l < |todo| {
        assert now[k] == was[k] && now[l] == was[l];
      } else {
        assert now[l] == parts[l - |todo|];
        if k >= |todo| {
          assert now[k] == parts[k - |todo|];
        } else {
          assert now[k] == todo[k];
        }
      }
    }
  }

  lemma CoveredAfter(todo: seq<Part>, cuts: set<int>, n: nat, parts: seq<Part>, lo: int, right: int, left: int, hi: int)
    requires Covered(todo + [(lo, hi)], cuts, n)
    requires lo <= right < left <= hi && left <= right + 2
    requires Halves(parts, lo, right, left, hi)
    ensures Covered(todo + parts, cuts + {right + 1, left}, n)
  {
    var was, now, cuts' := todo + [(lo, hi)], todo + parts, cuts + {right + 1, left};
    forall i, j | 0 <= i && i + MAX_THRESH < j < n
      ensures CutBetween(cuts', i, j) || InPart(now, i, j)
    {
      if CutBetween(cuts, i, j) {
        var c :| c in cuts && i < c <= j;
        assert c in cuts';
      } else {
        assert InPart(was, i, j);
        var k :| 0 <= k < |was| && was[k].0 <= i && j <= was[k].1;
        if k < |todo| {
          assert now[k] == was[k];
        } else if i <= right < j {
          assert right + 1 in cuts';
        } else if i < left <= j {
          assert left in cuts';
        } else {
          var e := if j <= right then (lo, right) else (left, hi);
          assert e in parts;
          var m :| 0 <= m < |parts| && parts[m] == e;
          assert now[|todo| + m] == e;
        }
      }
    }
  }

  lemma CutsAfter<T>(cmp: (T, T) -> int, s: seq<T>, t: seq<T>, cuts: set<int>, lo: int, right: int, left: int, hi: int)
    requires AllCuts(cmp, s, cuts) && Rearranged(s, t, lo, hi + 1) && Uncut((lo, hi), cuts, |s|)
    requires lo <= right < left <= hi
    requires forall i, j | lo <= i <= right && right < j <= hi :: cmp(t[i], t[j]) <= 0
    requires forall i, j | lo <= i < left && left <= j <= hi :: cmp(t[i], t[j]) <= 0
    ensures AllCuts(cmp, t, cuts + {right + 1, left})
  {
    hide Boundary, Rearranged;
    forall c | c in cuts
      ensures Boundary(cmp, t, c)
    {
      CutKept(cmp, s, t, lo, hi + 1, c);
    }
    SameLength(s, t, lo, hi + 1);
    CutInside(cmp, t, lo, hi + 1, right + 1);
    CutInside(cmp, t, lo, hi + 1, left);
  }

  lemma SameLength<T>(s: seq<T>, t: seq<T>, lo: int, hi: int)
    requires Rearranged(s, t, lo, hi)
    ensures 0 <= lo <= hi <= |s| == |t|
  {
  }

  lemma {:induction false} ShallowEnough(m: nat, n: nat)
    requires 6 * Pow2(m) <= n < 0x1_0000_0000_0000_0000
    ensures m < STACK_SIZE - 2
  {
    hide Pow2;
    if m >= 62 {
      Pow2Grows(62, m);
      Pow2Of62();
    }
  }

  lemma {:induction false} Pow2Grows(k: nat, m: nat)
    requires k <= m
    ensures Pow2(k) <= Pow2(m)
  {
    if k < m {
      Pow2Grows(k, m - 1);
    }
  }

  lemma Pow2Of62()
    ensures Pow2(62) == 0x4000_0000_0000_0000
  {
    assert Pow2(10) == 1024;
    assert Pow2(20) == 1024 * Pow2(10) by { Pow2Ten(10); }
    assert Pow2(30) == 1024 * Pow2(20) by { Pow2Ten(20); }
    assert Pow2(40) == 1024 * Pow2(30) by { Pow2Ten(30); }
    assert Pow2(50) == 1024 * Pow2(40) by { Pow2Ten(40); }
    assert Pow2(60) == 1024 * Pow2(50) by { Pow2Ten(50); }
  }

  lemma Pow2Ten(m: nat)
    ensures Pow2(m + 10) == 1024 * Pow2(m)
  {
    assert Pow2(m + 2) == 4 * Pow2(m);
    assert Pow2(m + 4) == 16 * Pow2(m);
    assert Pow2(m + 6) == 64 * Pow2(m);
    assert Pow2(m + 8) == 256 * Pow2(m);
  }

  /** What holds between two rounds of the quicksort. */
  ghost predicate Progress<T>(cmp: (T, T) -> int, s: seq<T>, todo: seq<Part>, cuts: set<int>) {
    && AllCuts(cmp, s, cuts) && Pending(todo, cuts, |s|) && Covered(todo, cuts, |s|) && Halving(todo, |s|)
    && |s| < 0x1_0000_0000_0000_0000
  }

  lemma HalvingAfter(todo: seq<Part>, n: nat, parts: seq<Part>, lo: int, right: int, left: int, hi: int)
    requires Halving(todo + [(lo, hi)], n) && n < 0x1_0000_0000_0000_0000
    requires lo <= right < left <= hi
    requires Halves(parts, lo, right, left, hi)
    requires |parts| == 2 ==> Size(parts[1]) <= Size(parts[0])
    ensures Halving(todo + parts, n)
  {
    hide Pow2, Size, Halves, Fit;
    var now := todo + parts;
    SizesAfter(parts, lo, right, left, hi);
    forall k: nat | k < |now|
      ensures Fit(now[k], k, n)
    {
      hide Halving;
      HalvingAt(todo, n, parts, (lo, hi), k);
    }
  }

  /** A part of six elements or more at depth m leaves the stack room for its entry. */
  lemma StackFits(e: Part, m: nat, n: nat)
    requires Size(e) >= 6 && Fit(e, m, n) && n < 0x1_0000_0000_0000_0000
    ensures m + 1 < STACK_SIZE && Pow2(m + 1) <= n
  {
    hide Pow2;
    Pow2Next(m);
    Fits(6, Size(e), Pow2(m), n);
    ShallowEnough(m, n);
  }

  lemma DepthAfter(todo: seq<Part>, n: nat, parts: seq<Part>, lo: int, right: int, left: int, hi: int)
    requires Halving(todo + parts, n) && n < 0x1_0000_0000_0000_0000
    requires lo <= right < left <= hi
    requires Halves(parts, lo, right, left, hi) && |parts| == 2
    ensures |todo| + 2 < STACK_SIZE && Pow2(|todo| + 2) <= n
  {
    hide Pow2, Fit;
    assert (todo + parts)[|todo| + 1] == parts[1];
    StackFits(parts[1], |todo| + 1, n);
  }

  lemma HalvingAt(todo: seq<Part>, n: nat, parts: seq<Part>, e: Part, k: nat)
    requires Halving(todo + [e], n) && k < |todo + parts| && |parts| <= 2
    requires |parts| > 0 ==> Size(parts[0]) <= Size(e)
    requires |parts| == 2 ==> 2 * Size(parts[1]) <= Size(e)
    ensures Fit((todo + parts)[k], k, n)
  {
    hide Pow2, Size;
    var was, now, m := todo + [e], todo + parts, |todo|;
    if k < m {
      assert now[k] == was[k];
    } else {
      assert was[m] == e && Fit(was[m], m, n);
      Pow2Next(m);
      if k == m {
        Fits(Size(parts[0]), Size(e), Pow2(m), n);
      } else {
        FitsHalf(Size(parts[1]), Size(e), Pow2(m), n);
      }
    }
  }

  lemma SizesAfter(parts: seq<Part>, lo: int, right: int, left: int, hi: int)
    requires lo <= right < left <= hi
    requires Halves(parts, lo, right, left, hi)
    requires |parts| == 2 ==> Size(parts[1]) <= Size(parts[0])
    ensures |parts| <= 2
    ensures forall k | 0 <= k < |parts| :: 6 <= Size(parts[k]) <= Size((lo, hi))
    ensures |parts| == 2 ==> 2 * Size(parts[1]) <= Size((lo, hi))
  {
  }

  lemma Fits(x: int, y: int, p: int, n: int)
    requires x <= y && p >= 0 && y * p <= n
    ensures x * p <= n
  {
  }

  lemma FitsHalf(x: int, y: int, p: int, n: int)
    requires 2 * x <= y && p >= 0 && y * p <= n
    ensures x * (2 * p) <= n
  {
    Fits(2 * x, y, p, n);
    assert x * (2 * p) == 2 * x * p;
  }

  lemma Pow2Next(m: nat)
    ensures Pow2(m) >= 1 && Pow2(m + 1) == 2 * Pow2(m)
  {
    Pow2Grows(0, m);
  }

  lemma WorkAfter(todo: seq<Part>, parts: seq<Part>, lo: int, right: int, left: int, hi: int)
    requires lo <= right < left <= hi
    requires Halves(parts, lo, right, left, hi)
    ensures Work(todo + parts) < Work(todo + [(lo, hi)])
  {
    hide Work;
    WorkLast(todo, (lo, hi));
    if parts == [] {
      assert todo + parts == todo;
    } else {
      WorkLast(todo, parts[0]);
      if |parts| == 1 {
        assert parts == [parts[0]];
      } else {
        WorkLast(todo + [parts[0]], parts[1]);
        assert todo + parts == todo + [parts[0]] + [parts[1]];
      }
    }
  }

  lemma Advance<T>(cmp: (T, T) -> int, s: seq<T>, t: seq<T>, todo: seq<Part>, cuts: set<int>,
                   parts: seq<Part>, lo: int, right: int, left: int, hi: int)
    requires Progress(cmp, s, todo + [(lo, hi)], cuts) && Rearranged(s, t, lo, hi + 1)
    requires lo <= right < left <= hi && left <= right + 2
    requires forall i, j | lo <= i <= right && right < j <= hi :: cmp(t[i], t[j]) <= 0
    requires forall i, j | lo <= i < left && left <= j <= hi :: cmp(t[i], t[j]) <= 0
    requires Halves(parts, lo, right, left, hi)
    requires |parts| == 2 ==> Size(parts[1]) <= Size(parts[0])
    ensures Progress(cmp, t, todo + parts, cuts + {right + 1, left})
    ensures 0 <= Work(todo + parts) < Work(todo + [(lo, hi)])
    ensures |parts| == 2 ==> |todo| + 2 < STACK_SIZE && Pow2(|todo| + 2) <= |s|
  {
    hide Rearranged, Boundary, AllCuts, Covered, Halving, Halves, Work, Pow2;
    SameLength(s, t, lo, hi + 1);
    assert (todo + [(lo, hi)])[|todo|] == (lo, hi);
    CutsAfter(cmp, s, t, cuts, lo, right, left, hi);
    PendingAfter(todo, cuts, |s|, parts, lo, right, left, hi);
    CoveredAfter(todo, cuts, |s|, parts, lo, right, left, hi);
    HalvingAfter(todo, |s|, parts, lo, right, left, hi);
    if |parts| == 2 {
      DepthAfter(todo, |s|, parts, lo, right, left, hi);
    }
    WorkAfter(todo, parts, lo, right, left, hi);
    WorkNatural(todo + parts, cuts + {right + 1, left}, |s|);
  }

  /** Elements more than four positions apart are in order. */
  ghost predicate NearlySorted<T>(cmp: (T, T) -> int, s: seq<T>) {
    forall i, j | 0 <= i && i + MAX_THRESH < j < |s| :: cmp(s[i], s[j]) <= 0
  }

  lemma NothingPending<T>(cmp: (T, T) -> int, s: seq<T>, cuts: set<int>)
    requires Progress(cmp, s, [], cuts)
    ensures NearlySorted(cmp, s)
  {
    forall i, j | 0 <= i && i + MAX_THRESH < j < |s|
      ensures cmp(s[i], s[j]) <= 0
    {
      assert CutBetween(cuts, i, j);
      var c :| c in cuts && i < c <= j;
      assert Boundary(cmp, s, c);
    }
  }

  lemma AllPending<T>(cmp: (T, T) -> int, s: seq<T>)
    requires MAX_THRESH < |s| < 0x1_0000_0000_0000_0000
    ensures Progress(cmp, s, [(0, |s| - 1)], {0, |s|}) && Work([(0, |s| - 1)]) >= 0
  {
    var todo: seq<Part> := [(0, |s| - 1)];
    forall i, j | 0 <= i && i + MAX_THRESH < j < |s|
      ensures InPart(todo, i, j)
    {
      assert todo[0].0 <= i && j <= todo[0].1;
    }
  }

  lemma CurrentPart<T>(cmp: (T, T) -> int, s: seq<T>, todo: seq<Part>, lo: int, hi: int, cuts: set<int>)
    requires Progress(cmp, s, todo + [(lo, hi)], cuts)
    ensures 0 <= lo && lo + MAX_THRESH <= hi < |s|
  {
    assert (todo + [(lo, hi)])[|todo|] == (lo, hi);
  }

  /** The parts still to be partitioned, the larger one first. */
  ghost function Parts(lo: int, right: int, left: int, hi: int): (parts: seq<Part>)
    requires lo <= right < left <= hi
    ensures Halves(parts, lo, right, left, hi)
    ensures |parts| == 2 ==> Size(parts[1]) <= Size(parts[0])
  {
    var l, r := (lo, right), (left, hi);
    if right - lo <= MAX_THRESH then
      if hi - left <= MAX_THRESH then [] else [r]
    else if hi - left <= MAX_THRESH then [l]
    else if right - lo > hi - left then [l, r] else [r, l]
  }

  /** Partition the part that is next. */
  method PartitionRound<T(!new)>(cmp: (T, T) -> int, a: array<T>, lo: int, hi: int, ghost rest: seq<Part>,
                                 ghost cuts: set<int>)
    returns (left: int, right: int, ghost cuts': set<int>)
    requires TotalPreorder(cmp) && Progress(cmp, a[..], rest + [(lo, hi)], cuts)
    modifies a
    ensures lo <= right < left <= hi
    ensures Progress(cmp, a[..], rest + Parts(lo, right, left, hi), cuts')
    ensures 0 <= Work(rest + Parts(lo, right, left, hi)) < Work(rest + [(lo, hi)])
    ensures |Parts(lo, right, left, hi)| == 2 ==> |rest| + 2 < STACK_SIZE && Pow2(|rest| + 2) <= a.Length
    ensures multiset(a[..]) == multiset(old(a[..]))
  {
    hide TotalPreorder, Progress, Rearranged, Work, Pow2, Halves, Size;
    ghost var s := a[..];
    CurrentPart(cmp, s, rest, lo, hi, cuts);
    left, right := Partition(cmp, a, lo, hi);
    WholeRearranged(s, a[..], lo, hi + 1);
    Advance(cmp, s, a[..], rest, cuts, Parts(lo, right, left, hi), lo, right, left, hi);
    cuts' := cuts + {right + 1, left};
  }

  /** Partition until the parts have five elements or less.  The stack, with its sentinel, never
      holds more than the logarithm of the length: deepest is the most it has held. */
  method Quicksort<T(!new)>(cmp: (T, T) -> int, a: array<T>) returns (ghost deepest: nat)
    requires TotalPreorder(cmp) && MAX_THRESH < a.Length < 0x1_0000_0000_0000_0000
    modifies a
    ensures NearlySorted(cmp, a[..])
    ensures multiset(a[..]) == multiset(old(a[..]))
    ensures deepest <= STACK_SIZE && Pow2(deepest) <= a.Length
  {
    hide TotalPreorder, Progress, Rearranged, NearlySorted, Work, Pow2, Halves, Size;
    var lo, hi := 0, a.Length - 1;
    var stack := new Part[STACK_SIZE];
    var top := 0;
    stack[top] := (-1, -1);
    top := top + 1;
    deepest := 1;
    PowerOne();
    ghost var cuts, todo := {0, a.Length}, [(0, a.Length - 1)];
    AllPending(cmp, a[..]);
    while top > 0
      invariant 0 <= top <= deepest <= STACK_SIZE == stack.Length && Pow2(deepest) <= a.Length
      invariant |todo| == top && forall k | 0 <= k < top - 1 :: todo[k] == stack[k + 1]
      invariant top > 0 ==> todo[top - 1] == (lo, hi)
      invariant Progress(cmp, a[..], todo, cuts) && Work(todo) >= 0
      invariant multiset(a[..]) == multiset(old(a[..]))
      decreases Work(todo)
    {
      ghost var rest := todo[..top - 1];
      assert todo == rest + [(lo, hi)];
      var left, right;
      left, right, cuts := PartitionRound(cmp, a, lo, hi, rest, cuts);
      ghost var t, parts := a[..], Parts(lo, right, left, hi);
      todo := rest + parts;
      if right - lo <= MAX_THRESH {
        if hi - left <= MAX_THRESH {
          top := top - 1;
          lo, hi := stack[top].0, stack[top].1;
        } else {
          lo := left;
        }
      } else if hi - left <= MAX_THRESH {
        hi := right;
      } else if right - lo > hi - left {
        stack[top] := (lo, right);
        top := top + 1;
        lo := left;
      } else {
        stack[top] := (left, hi);
        top := top + 1;
        hi := right;
      }
      assert a[..] == t;
      deepest := if top > deepest then top else deepest;
    }
    NothingPending(cmp, a[..], cuts);
  }

  lemma PowerOne()
    ensures Pow2(1) == 2
  {
  }

  // ---------- The final insertion sort ----------

  /** No element of s is below x. */
  ghost predicate Least<T>(cmp: (T, T) -> int, x: T, s: seq<T>) {
    forall k | 0 <= k < |s| :: cmp(x, s[k]) <= 0
  }

  /** In a nearly sorted sequence the first five elements hold a least one. */
  lemma {:induction false} LeastIsEarly<T(!new)>(cmp: (T, T) -> int, s: seq<T>, x: T, k: nat)
    requires TotalPreorder(cmp) && NearlySorted(cmp, s) && k < |s|
    requires forall i | 0 <= i <= MAX_THRESH && i < |s| :: cmp(x, s[i]) <= 0
    ensures cmp(x, s[k]) <= 0
  {
    hide TotalPreorder;
    if k > MAX_THRESH {
      LeastIsEarly(cmp, s, x, 0);
      assert cmp(s[0], s[k]) <= 0;
      Transitive(cmp, x, s[0], s[k]);
    }
  }

  /** Bring a least element to the front; only the first five elements are looked at. */
  method LeastToFront<T(!new)>(cmp: (T, T) -> int, a: array<T>)
    requires TotalPreorder(cmp) && a.Length > 0 && NearlySorted(cmp, a[..])
    modifies a
    ensures Least(cmp, a[0], a[..])
    ensures multiset(a[..]) == multiset(old(a[..]))
  {
    hide TotalPreorder, NearlySorted;
    var end := a.Length - 1;
    var tmp := 0;
    var thresh := if end < MAX_THRESH then end else MAX_THRESH;
    var run := tmp + 1;
    Reflexive(cmp, a[0]);
    ghost var s := a[..];
    while run <= thresh
      invariant a[..] == s
      invariant 1 <= run <= thresh + 1 && 0 <= tmp < run && tmp <= thresh
      invariant forall k | 0 <= k < run :: cmp(a[tmp], a[k]) <= 0
    {
      Opposite(cmp, a[run], a[tmp]);
      Reflexive(cmp, a[run]);
      if cmp(a[run], a[tmp]) < 0 {
        forall k | 0 <= k < run
          ensures cmp(a[run], a[k]) <= 0
        {
          Transitive(cmp, a[run], a[tmp], a[k]);
        }
        tmp := run;
      }
      run := run + 1;
    }
    forall k: nat | k < |s|
      ensures cmp(a[tmp], s[k]) <= 0
    {
      LeastIsEarly(cmp, s, a[tmp], k);
    }
    if tmp != 0 {
      Swap(a, tmp, 0, 0, a.Length);
      WholeRearranged(s, a[..], 0, a.Length);
    }
  }

  /** s with the element at run moved down to tmp. */
  function MovedDown<T>(s: seq<T>, tmp: int, run: int): seq<T>
    requires 0 <= tmp <= run < |s|
  {
    s[..tmp] + [s[run]] + s[tmp..run] + s[run + 1..]
  }

  lemma MovedSame<T>(s: seq<T>, tmp: int, run: int)
    requires 0 <= tmp <= run < |s|
    ensures multiset(MovedDown(s, tmp, run)) == multiset(s)
  {
    assert s == s[..tmp] + s[tmp..run] + [s[run]] + s[run + 1..];
  }

  /** Moving an element below those that exceed it sorts one element more. */
  lemma MovedSorted<T(!new)>(cmp: (T, T) -> int, s: seq<T>, tmp: int, run: int)
    requires TotalPreorder(cmp) && 0 < tmp <= run < |s|
    requires Sorted(cmp, s[..run]) && Least(cmp, s[0], s)
    requires cmp(s[tmp - 1], s[run]) <= 0
    requires forall k | tmp <= k < run :: cmp(s[run], s[k]) <= 0
    ensures Sorted(cmp, MovedDown(s, tmp, run)[..run + 1])
    ensures Least(cmp, MovedDown(s, tmp, run)[0], MovedDown(s, tmp, run))
  {
    hide TotalPreorder;
    var t := MovedDown(s, tmp, run);
    assert forall k | 0 <= k < |t| :: t[k] == if k < tmp || k > run then s[k] else if k == tmp then s[run]
           else s[k - 1];
    forall i, j | 0 <= i < j < run + 1
      ensures cmp(t[i], t[j]) <= 0
    {
      if i == tmp {
      } else {
        var i' := if i < tmp then i else i - 1;
        assert t[i] == s[..run][i'];
        if j == tmp {
          if i < tmp - 1 {
            assert cmp(s[..run][i], s[..run][tmp - 1]) <= 0;
            Transitive(cmp, s[i], s[tmp - 1], s[run]);
          }
        } else {
          var j' := if j < tmp then j else j - 1;
          assert t[j] == s[..run][j'];
        }
      }
    }
  }

  /** Move the element at run down to tmp, the ones between up by one. */
  method MoveDown<T>(a: array<T>, tmp: int, run: int)
    requires 0 <= tmp <= run < a.Length
    modifies a
    ensures a[..] == MovedDown(old(a[..]), tmp, run)
  {
    ghost var s := a[..];
    var c := a[run];
    var hi, lo := run, run - 1;
    while lo >= tmp
      invariant tmp - 1 <= lo < hi <= run && lo == hi - 1
      invariant forall k | 0 <= k <= hi || run < k < a.Length :: a[k] == s[k]
      invariant forall k | hi < k <= run :: a[k] == s[k - 1]
    {
      a[hi] := a[lo];
      hi := lo;
      lo := lo - 1;
    }
    a[hi] := c;
  }

  /** With a least element in front, the inner scan stops by itself. */
  method InsertionSort<T(!new)>(cmp: (T, T) -> int, a: array<T>)
    requires TotalPreorder(cmp) && a.Length > 0 && Least(cmp, a[0], a[..])
    modifies a
    ensures Sorted(cmp, a[..]) && multiset(a[..]) == multiset(old(a[..]))
  {
    hide TotalPreorder, MovedDown, Sorted, Least;
    var end := a.Length - 1;
    var run := 1;
    LeastFirst(cmp, a[..]);
    run := run + 1;
    while run <= end
      invariant 2 <= run
      invariant Least(cmp, a[0], a[..]) && Sorted(cmp, a[..if run <= a.Length then run else a.Length])
      invariant multiset(a[..]) == multiset(old(a[..]))
    {
      ghost var s := a[..];
      var tmp := run - 1;
      LeastBelow(cmp, s, run);
      Opposite(cmp, s[0], s[run]);
      while cmp(a[run], a[tmp]) < 0
        invariant 0 <= tmp < run && a[..] == s
        invariant forall k | tmp < k < run :: cmp(s[run], s[k]) <= 0
        decreases tmp
      {
        tmp := tmp - 1;
      }
      Opposite(cmp, s[run], s[tmp]);
      tmp := tmp + 1;
      assert s[..run] == a[..run];
      MovedSorted(cmp, s, tmp, run);
      MovedSame(s, tmp, run);
      if tmp != run {
        MoveDown(a, tmp, run);
      } else {
        MovedNowhere(s, run);
      }
      run := run + 1;
    }
    assert a[..] == a[..a.Length];
  }

  lemma MovedNowhere<T>(s: seq<T>, run: int)
    requires 0 <= run < |s|
    ensures MovedDown(s, run, run) == s
  {
  }

  lemma LeastFirst<T>(cmp: (T, T) -> int, s: seq<T>)
    requires |s| > 0 && Least(cmp, s[0], s)
    ensures Sorted(cmp, s[..if 2 <= |s| then 2 else |s|])
  {
  }

  lemma LeastBelow<T>(cmp: (T, T) -> int, s: seq<T>, k: int)
    requires 0 <= k < |s| && Least(cmp, s[0], s)
    ensures cmp(s[0], s[k]) <= 0
  {
  }

  /** Sort an array in place. */
  method Asort<T(!new)>(cmp: (T, T) -> int, a: array<T>)
    requires TotalPreorder(cmp) && a.Length < 0x1_0000_0000_0000_0000
    modifies a
    ensures Sorted(cmp, a[..])
    ensures multiset(a[..]) == multiset(old(a[..]))
  {
    hide TotalPreorder;
    if a.Length == 0 {
      return;
    }
    if a.Length > MAX_THRESH {
      var _ := Quicksort(cmp, a);
    }
    LeastToFront(cmp, a);
    InsertionSort(cmp, a);
  }
}
