/** Open addressing with tombstones, on the table as a sequence of words. */
module HtableProbe {
  import opened Basics
  import opened HtableWords

  /** The next bucket, around the end of the table. */
  function Next(i: int, n: int): int {
    if i + 1 == n then 0 else i + 1
  }

  /** k lies on the way from h up to, but not including, b. */
  predicate Between(h: int, k: int, b: int) {
    if h <= b then h <= k < b else k >= h || k < b
  }

  /** How many steps lead from i to d in a table of n buckets. */
  function Steps(i: int, d: int, n: int): int {
    if i <= d then d - i else d - i + n
  }

  /** A probe that starts at h meets no empty bucket before b. */
  ghost predicate Reaches(s: seq<Word>, h: int, b: int) {
    forall k | 0 <= k < |s| && Between(h, k, b) :: s[k] != EMPTY
  }

  function Home(c: Coding, hash: Word): nat {
    Low(hash, c.bits)
  }

  /** A live word decodes to a real pointer, and is what that pointer encodes to in this bucket. */
  ghost predicate Coded(rehash: Word -> Word, c: Coding, s: seq<Word>, b: int)
    requires 0 <= b < |s|
  {
    Live(s[b]) ==>
      var p := Raw(c, s[b]);
      Live(p) && s[b] == Encode(c, p, rehash(p), b == Home(c, rehash(p)))
  }

  ghost predicate Found(rehash: Word -> Word, c: Coding, s: seq<Word>, b: int)
    requires 0 <= b < |s|
  {
    Live(s[b]) ==> Reaches(s, Home(c, rehash(Raw(c, s[b]))), b)
  }

  ghost predicate AllCoded(rehash: Word -> Word, c: Coding, s: seq<Word>) {
    && CodingOk(c) && |s| == Pow2(c.bits)
    && forall b | 0 <= b < |s| :: Coded(rehash, c, s, b)
  }

  ghost predicate AllFound(rehash: Word -> Word, c: Coding, s: seq<Word>) {
    forall b | 0 <= b < |s| :: Found(rehash, c, s, b)
  }

  // ---------- What the table holds ----------

  function Single(c: Coding, e: Word): multiset<Word> {
    if Live(e) then multiset{Raw(c, e)} else multiset{}
  }

  /** The pointers in the table. */
  function Pointers(c: Coding, s: seq<Word>): multiset<Word> {
    if s == [] then multiset{} else Pointers(c, s[..|s| - 1]) + Single(c, s[|s| - 1])
  }

  function Tombs(s: seq<Word>): nat {
    if s == [] then 0 else Tombs(s[..|s| - 1]) + if s[|s| - 1] == DELETED then 1 else 0
  }

  lemma {:induction false} PointersUpdate(c: Coding, s: seq<Word>, i: int, e: Word)
    requires 0 <= i < |s|
    ensures Single(c, s[i]) <= Pointers(c, s)
    ensures Pointers(c, s[i := e]) == Pointers(c, s) - Single(c, s[i]) + Single(c, e)
  {
    hide Single;
    var m := |s| - 1;
    var t := s[i := e];
    if i == m {
      assert t[..m] == s[..m];
      Exchange(Pointers(c, s[..m]), Single(c, s[m]), multiset{}, Single(c, e));
    } else {
      PointersUpdate(c, s[..m], i, e);
      assert t[..m] == s[..m][i := e];
      Exchange(Pointers(c, s[..m]), Single(c, s[i]), Single(c, s[m]), Single(c, e));
    }
  }

  lemma Exchange(m: multiset<Word>, x: multiset<Word>, y: multiset<Word>, z: multiset<Word>)
    ensures x <= m ==> (m - x + z) + y == (m + y) - x + z
    ensures m + z == (m + x) - x + z
  {
  }

  lemma {:induction false} TombsUpdate(s: seq<Word>, i: int, e: Word)
    requires 0 <= i < |s|
    ensures Tombs(s[i := e]) == Tombs(s) - (if s[i] == DELETED then 1 else 0) + (if e == DELETED then 1 else 0)
  {
    var m := |s| - 1;
    var t := s[i := e];
    if i == m {
      assert t[..m] == s[..m];
    } else {
      TombsUpdate(s[..m], i, e);
      assert t[..m] == s[..m][i := e];
    }
  }

  /** p is in the table exactly if some live word decodes to it. */
  lemma {:induction false} PointersIn(c: Coding, s: seq<Word>, p: Word)
    ensures p in Pointers(c, s) <==> exists b :: 0 <= b < |s| && Live(s[b]) && Raw(c, s[b]) == p
  {
    if s != [] {
      var m := |s| - 1;
      PointersIn(c, s[..m], p);
      if p in Pointers(c, s[..m]) {
        var b :| 0 <= b < |s[..m]| && Live(s[..m][b]) && Raw(c, s[..m][b]) == p;
        assert Live(s[b]) && Raw(c, s[b]) == p;
      }
      if b :| 0 <= b < |s| && Live(s[b]) && Raw(c, s[b]) == p && b < m {
        assert Live(s[..m][b]) && Raw(c, s[..m][b]) == p;
      }
    }
  }

  /** Pointers and tombstones that do not fill the table leave an empty bucket. */
  lemma {:induction false} EmptyBucket(c: Coding, s: seq<Word>) returns (d: int)
    requires |Pointers(c, s)| + Tombs(s) < |s|
    ensures 0 <= d < |s| && s[d] == EMPTY
  {
    var m := |s| - 1;
    if s[m] == EMPTY {
      d := m;
    } else {
      d := EmptyBucket(c, s[..m]);
    }
  }

  lemma {:induction false} DeadBucket(c: Coding, s: seq<Word>) returns (d: int)
    requires |Pointers(c, s)| < |s|
    ensures 0 <= d < |s| && !Live(s[d])
  {
    var m := |s| - 1;
    if !Live(s[m]) {
      d := m;
    } else {
      d := DeadBucket(c, s[..m]);
    }
  }

  /** Words that are equally live and decode alike hold the same pointers. */
  lemma {:induction false} SamePointers(c: Coding, s: seq<Word>, c': Coding, s': seq<Word>)
    requires |s| == |s'|
    requires forall k | 0 <= k < |s| :: Single(c, s[k]) == Single(c', s'[k])
    ensures Pointers(c, s) == Pointers(c', s')
  {
    if s != [] {
      var m := |s| - 1;
      assert forall k | 0 <= k < m :: s[..m][k] == s[k] && s'[..m][k] == s'[k];
      SamePointers(c, s[..m], c', s'[..m]);
    }
  }

  lemma {:induction false} SameTombs(s: seq<Word>, s': seq<Word>)
    requires |s| == |s'|
    requires forall k | 0 <= k < |s| :: s[k] == DELETED <==> s'[k] == DELETED
    ensures Tombs(s) == Tombs(s')
  {
    if s != [] {
      var m := |s| - 1;
      assert forall k | 0 <= k < m :: s[..m][k] == s[k] && s'[..m][k] == s'[k];
      SameTombs(s[..m], s'[..m]);
    }
  }

  lemma {:induction false} NoTombs(s: seq<Word>)
    requires forall k | 0 <= k < |s| :: s[k] != DELETED
    ensures Tombs(s) == 0
  {
    if s != [] {
      NoTombs(s[..|s| - 1]);
    }
  }

  lemma {:induction false} AllEmpty(c: Coding, s: seq<Word>)
    requires forall k | 0 <= k < |s| :: s[k] == EMPTY
    ensures Pointers(c, s) == multiset{} && Tombs(s) == 0
  {
    if s != [] {
      AllEmpty(c, s[..|s| - 1]);
    }
  }

  // ---------- Adding ----------

  /** j is the first bucket from h on without a live word. */
  ghost predicate FirstFree(s: seq<Word>, h: int, j: int) {
    && 0 <= h < |s| && 0 <= j < |s| && !Live(s[j])
    && forall k | 0 <= k < |s| && Between(h, k, j) :: Live(s[k])
  }

  /** Filling a free bucket with a live word hides nothing. */
  lemma ReachesFilled(s: seq<Word>, j: int, e: Word, h: int, b: int)
    requires 0 <= j < |s| && Live(e) && Reaches(s, h, b)
    ensures Reaches(s[j := e], h, b)
  {
  }

  lemma Placed(rehash: Word -> Word, c: Coding, s: seq<Word>, p: Word, j: int)
    requires AllCoded(rehash, c, s) && AllFound(rehash, c, s)
    requires Live(p) && Fits(c, p)
    requires FirstFree(s, Home(c, rehash(p)), j)
    requires Live(Encode(c, p, rehash(p), j == Home(c, rehash(p))))
    ensures var e := Encode(c, p, rehash(p), j == Home(c, rehash(p)));
            && AllCoded(rehash, c, s[j := e]) && AllFound(rehash, c, s[j := e])
            && Pointers(c, s[j := e]) == Pointers(c, s) + multiset{p}
            && Tombs(s[j := e]) <= Tombs(s)
  {
    var e := Encode(c, p, rehash(p), j == Home(c, rehash(p)));
    var t := s[j := e];
    CodedPlaced(rehash, c, s, p, j);
    hide CodingOk, Encode, Raw, Reaches, Live, Pointers, Tombs;
    PointersUpdate(c, s, j, e);
    TombsUpdate(s, j, e);
    forall b | 0 <= b < |t|
      ensures Coded(rehash, c, t, b) && Found(rehash, c, t, b)
    {
      assert Coded(rehash, c, s, b) && Found(rehash, c, s, b);
      if b != j && Live(s[b]) {
        ReachesFilled(s, j, e, Home(c, rehash(Raw(c, s[b]))), b);
      }
    }
  }

  lemma CodedPlaced(rehash: Word -> Word, c: Coding, s: seq<Word>, p: Word, j: int)
    requires CodingOk(c) && Live(p) && Fits(c, p)
    requires FirstFree(s, Home(c, rehash(p)), j)
    requires Live(Encode(c, p, rehash(p), j == Home(c, rehash(p))))
    ensures var e := Encode(c, p, rehash(p), j == Home(c, rehash(p)));
            Coded(rehash, c, s[j := e], j) && Found(rehash, c, s[j := e], j) && Raw(c, e) == p && e != DELETED
  {
    hide CodingOk, Encode, Raw, Fits;
    EncodeDecode(c, p, rehash(p), j == Home(c, rehash(p)));
  }

  // ---------- Deleting ----------

  /** A bucket before an empty one is on no probe's way, so it can be emptied; any other becomes
      a tombstone. */
  lemma Deleted(rehash: Word -> Word, c: Coding, s: seq<Word>, i: int)
    requires AllCoded(rehash, c, s) && AllFound(rehash, c, s)
    requires 0 <= i < |s| && Live(s[i])
    ensures var e := if s[Next(i, |s|)] != EMPTY then DELETED else EMPTY;
            && AllCoded(rehash, c, s[i := e]) && AllFound(rehash, c, s[i := e])
            && Pointers(c, s[i := e]) == Pointers(c, s) - multiset{Raw(c, s[i])}
            && Tombs(s[i := e]) == Tombs(s) + (if e == DELETED then 1 else 0)
  {
    var e := if s[Next(i, |s|)] != EMPTY then DELETED else EMPTY;
    var t := s[i := e];
    assert s[i] != DELETED && !Live(e);
    hide CodingOk, Encode, Raw, Reaches, Pointers, Tombs;
    PointersUpdate(c, s, i, e);
    TombsUpdate(s, i, e);
    forall b | 0 <= b < |t|
      ensures Coded(rehash, c, t, b) && Found(rehash, c, t, b)
    {
      assert Coded(rehash, c, s, b) && Found(rehash, c, s, b);
      if b != i && Live(s[b]) {
        HomeInTable(c, s, rehash(Raw(c, s[b])));
        ReachesDeleted(s, i, Home(c, rehash(Raw(c, s[b]))), b);
      }
    }
  }

  lemma HomeInTable(c: Coding, s: seq<Word>, hash: Word)
    requires |s| == Pow2(c.bits)
    ensures 0 <= Home(c, hash) < |s|
  {
  }

  lemma ReachesDeleted(s: seq<Word>, i: int, h: int, b: int)
    requires 0 <= i < |s| && 0 <= h < |s| && 0 <= b < |s| && b != i && s[b] != EMPTY && Reaches(s, h, b)
    ensures Reaches(s[i := if s[Next(i, |s|)] != EMPTY then DELETED else EMPTY], h, b)
  {
    NextBetween(h, i, b, |s|);
  }

  lemma NextBetween(h: int, i: int, b: int, n: int)
    requires 0 <= h < n && 0 <= i < n && 0 <= b < n
    ensures 0 <= Next(i, n) < n
    ensures Between(h, i, b) ==> Next(i, n) == b || Between(h, Next(i, n), b)
  {
  }

  // ---------- Finding ----------

  /** A pointer in the table sits before the first empty bucket that a probe from its home meets. */
  lemma FoundBefore(rehash: Word -> Word, c: Coding, s: seq<Word>, b: int, d: int)
    requires AllFound(rehash, c, s) && |s| == Pow2(c.bits)
    requires 0 <= b < |s| && Live(s[b])
    requires 0 <= d < |s| && s[d] == EMPTY
    ensures Between(Home(c, rehash(Raw(c, s[b]))), b, d)
  {
    HomeInTable(c, s, rehash(Raw(c, s[b])));
    assert Found(rehash, c, s, b);
  }

  // ---------- Taking bits out of the mask ----------

  /** The common bits of diff are back in the live words up to i, and may be back in the others. */
  ghost predicate PartlyPutBack(c: Coding, diff: Word, s: seq<Word>, t: seq<Word>, i: int) {
    && |s| == |t|
    && forall k | 0 <= k < |s| ::
         if Live(s[k]) then
           && Live(t[k]) && PutBack(c, diff, t[k]) == PutBack(c, diff, s[k])
           && (k < i ==> t[k] == PutBack(c, diff, s[k]))
         else t[k] == s[k]
  }

  lemma PutBackStep(c: Coding, diff: Word, s: seq<Word>, t: seq<Word>, i: int)
    requires PartlyPutBack(c, diff, s, t, i) && 0 <= i < |s|
    ensures !Live(t[i]) ==> PartlyPutBack(c, diff, s, t, i + 1)
    ensures Live(t[i]) && Live(PutBack(c, diff, t[i])) ==>
              PartlyPutBack(c, diff, s, t[i := PutBack(c, diff, t[i])], i + 1)
  {
    hide PutBack, Live;
    PutBackTwice(c, diff, {}, t[i]);
    assert diff + {} == diff;
  }

  lemma PutBackMore(c: Coding, diff: Word, more: Word, s: seq<Word>, t: seq<Word>, i: int)
    requires PartlyPutBack(c, diff, s, t, i)
    ensures PartlyPutBack(c, diff + more, s, t, 0)
  {
    hide PutBack, Live;
    forall k | 0 <= k < |s| && Live(s[k])
      ensures PutBack(c, diff + more, t[k]) == PutBack(c, diff + more, s[k])
    {
      PutBackTwice(c, diff, more, t[k]);
      PutBackTwice(c, diff, more, s[k]);
    }
  }

  /** A word that the bits taken out would make look invalid has a bit left to expose. */
  lemma BitToExpose(rehash: Word -> Word, c: Coding, diff: Word, s: seq<Word>, t: seq<Word>, i: int)
    requires AllCoded(rehash, c, s) && PartlyPutBack(c, diff, s, t, i) && 0 <= i < |s| && diff <= c.mask
    requires Live(t[i]) && !Live(PutBack(c, diff, t[i]))
    ensures exists k :: 0 < k < WIDTH && k in Raw(c, PutBack(c, diff, t[i])) * (c.mask - diff)
  {
    assert Coded(rehash, c, s, i);
    hide PutBack, Live, Raw, CodingOk;
    PutBackRaw(c, diff, t[i]);
    PutBackRaw(c, diff, s[i]);
    HiddenBit(c, diff, t[i]);
  }

  /** The pointers' words look neither empty nor deleted, wherever they are put. */
  ghost predicate AlwaysLive(rehash: Word -> Word, c: Coding, m: multiset<Word>) {
    forall q, atHome :: q in m ==> Live(Encode(c, q, rehash(q), atHome))
  }

  /** Then no walk over the table has to start again. */
  lemma PutBackLive(rehash: Word -> Word, c: Coding, diff: Word, s: seq<Word>, t: seq<Word>, i: int)
    requires AllCoded(rehash, c, s) && PartlyPutBack(c, diff, s, t, i) && 0 <= i < |s| && diff <= c.mask
    requires AlwaysLive(rehash, Unmask(c, diff), Pointers(c, s)) && Live(t[i])
    ensures Live(PutBack(c, diff, t[i]))
  {
    hide PutBack, Live, Raw, CodingOk, Encode, Fits, Pointers, Unmask;
    assert Live(s[i]) && PutBack(c, diff, t[i]) == PutBack(c, diff, s[i]);
    assert Coded(rehash, c, s, i);
    var p := Raw(c, s[i]);
    RawFits(c, s[i]);
    PointersIn(c, s, p);
    PutBackEncoded(c, diff, p, rehash(p), i == Home(c, rehash(p)));
  }

  /** The words of s' under coding c' stand for the same pointers as those of s under c. */
  ghost predicate Remasked(c: Coding, s: seq<Word>, c': Coding, s': seq<Word>) {
    && |s| == |s'| && c.bits == c'.bits
    && forall k | 0 <= k < |s| ::
         if Live(s[k]) then Live(s'[k]) && Raw(c', s'[k]) == Raw(c, s[k]) else s'[k] == s[k]
  }

  lemma AllPutBack(rehash: Word -> Word, c: Coding, diff: Word, s: seq<Word>, t: seq<Word>)
    requires AllCoded(rehash, c, s) && PartlyPutBack(c, diff, s, t, |s|) && diff <= c.mask
    ensures AllCoded(rehash, Unmask(c, diff), t)
    ensures Remasked(c, s, Unmask(c, diff), t)
  {
    var c' := Unmask(c, diff);
    UnmaskOk(c, diff);
    forall k | 0 <= k < |s|
      ensures Coded(rehash, c', t, k)
      ensures if Live(s[k]) then Live(t[k]) && Raw(c', t[k]) == Raw(c, s[k]) else t[k] == s[k]
    {
      hide PutBack, Live, Raw, CodingOk, Encode, Fits, AllCoded;
      assert Coded(rehash, c, s, k);
      if Live(s[k]) {
        var p := Raw(c, s[k]);
        RawFits(c, s[k]);
        PutBackEncoded(c, diff, p, rehash(p), k == Home(c, rehash(p)));
        EncodeDecode(c', p, rehash(p), k == Home(c, rehash(p)));
      }
    }
  }

  lemma RemaskedFound(rehash: Word -> Word, c: Coding, s: seq<Word>, c': Coding, s': seq<Word>)
    requires Remasked(c, s, c', s') && AllFound(rehash, c, s)
    ensures AllFound(rehash, c', s')
    ensures Pointers(c', s') == Pointers(c, s) && Tombs(s') == Tombs(s)
  {
    hide Raw;
    SamePointers(c, s, c', s');
    SameTombs(s, s');
    forall b | 0 <= b < |s'|
      ensures Found(rehash, c', s', b)
    {
      assert Found(rehash, c, s, b);
    }
  }

  lemma FitsUnmasked(c: Coding, diff: Word, p: Word)
    requires Fits(c, p)
    ensures Fits(Unmask(c, diff), p)
  {
    assert p * (c.mask - diff) == p * c.mask - diff;
  }

  lemma FirstFreeUnique(s: seq<Word>, h: int, i: int, j: int)
    requires FirstFree(s, h, i) && FirstFree(s, h, j)
    ensures i == j
  {
    OneIsFirst(h, i, j);
  }

  lemma OneIsFirst(h: int, i: int, j: int)
    ensures i == j || Between(h, i, j) || Between(h, j, i)
  {
  }

  /** The word for p looks empty or deleted in the bucket where it would go. */
  ghost predicate LooksInvalid(c: Coding, s: seq<Word>, p: Word, h: Word) {
    exists i :: FirstFree(s, Home(c, h), i) && !Live(Encode(c, p, h, i == Home(c, h)))
  }

  lemma LooksInvalidThere(c: Coding, s: seq<Word>, p: Word, h: Word, i: int)
    requires FirstFree(s, Home(c, h), i)
    ensures LooksInvalid(c, s, p, h) <==> !Live(Encode(c, p, h, i == Home(c, h)))
  {
    hide Encode, Live, FirstFree;
    if LooksInvalid(c, s, p, h) {
      var j :| FirstFree(s, Home(c, h), j) && !Live(Encode(c, p, h, j == Home(c, h)));
      FirstFreeUnique(s, Home(c, h), i, j);
    }
  }

  /** With a perfect bit, a pointer whose home bucket is free never looks invalid. */
  lemma PerfectNeverInvalid(c: Coding, s: seq<Word>, p: Word, h: Word)
    requires CodingOk(c) && c.perfect != {}
    requires 0 <= Home(c, h) < |s| && !Live(s[Home(c, h)])
    ensures !LooksInvalid(c, s, p, h)
  {
    assert FirstFree(s, Home(c, h), Home(c, h));
    LooksInvalidThere(c, s, p, h, Home(c, h));
    PerfectIsLive(c, p, h);
  }

  /** A bucket overwritten by a dead word does not matter once the live word is in it: s1 is s with
      the dead word, s2 is s1 under the new coding. */
  lemma PlacedLater(rehash: Word -> Word, c: Coding, s: seq<Word>, w: Word, c': Coding, s2: seq<Word>, p: Word,
                    i: int, j: int)
    requires AllCoded(rehash, c, s) && AllFound(rehash, c, s) && Live(p) && Fits(c', p)
    requires FirstFree(s, Home(c, rehash(p)), i) && !Live(w)
    requires Remasked(c, s[i := w], c', s2) && AllCoded(rehash, c', s2)
    requires FirstFree(s2, Home(c', rehash(p)), j)
    requires Live(Encode(c', p, rehash(p), j == Home(c', rehash(p))))
    ensures var t := s2[j := Encode(c', p, rehash(p), j == Home(c', rehash(p)))];
            && AllCoded(rehash, c', t) && AllFound(rehash, c', t)
            && Pointers(c', t) == Pointers(c, s) + multiset{p} && Tombs(t) <= Tombs(s)
  {
    hide Live, Encode, Raw, CodingOk, Fits, Reaches;
    var h := Home(c, rehash(p));
    assert FirstFree(s2, h, i);
    FirstFreeUnique(s2, h, i, j);
    var v := s2[i := s[i]];
    assert Remasked(c, s, c', v);
    forall b | 0 <= b < |v|
      ensures Coded(rehash, c', v, b)
    {
      assert Coded(rehash, c', s2, b);
    }
    RemaskedFound(rehash, c, s, c', v);
    Placed(rehash, c', v, p, i);
    assert v[i := Encode(c', p, rehash(p), i == h)] == s2[i := Encode(c', p, rehash(p), i == h)];
  }

  lemma NoneLive(c: Coding, s: seq<Word>)
    requires Pointers(c, s) == multiset{}
    ensures forall b | 0 <= b < |s| :: !Live(s[b])
  {
    forall b | 0 <= b < |s|
      ensures !Live(s[b])
    {
      PointersIn(c, s, Raw(c, s[b]));
    }
  }

  // ---------- Rehashing in place ----------

  lemma Turned(st: int, h: int, x: int, b: int, n: int)
    requires 0 <= st < n && 0 <= h < n && 0 <= x < n && 0 <= b < n
    requires st != b && !Between(h, st, b) && Between(h, x, b)
    ensures Steps(st, x, n) < Steps(st, b, n)
  {
  }

  lemma SameTurn(st: int, x: int, y: int, n: int)
    requires 0 <= st < n && 0 <= x < n && 0 <= y < n
    ensures 0 <= Steps(st, x, n) < n
    ensures Steps(st, x, n) == Steps(st, y, n) ==> x == y
  {
  }

  /** In a walk from the empty bucket st, the first i buckets are in order again: no tombstones,
      and every entry in them is found; the others are as they were in s. */
  ghost predicate HalfRehashed(rehash: Word -> Word, c: Coding, s: seq<Word>, t: seq<Word>, st: int, i: int) {
    && |t| == |s| && 0 <= st < |s| && s[st] == EMPTY && t[st] == EMPTY
    && (forall k | 0 <= k < |s| && Steps(st, k, |s|) >= i :: t[k] == s[k])
    && (forall k | 0 <= k < |s| && Steps(st, k, |s|) < i ::
          t[k] != DELETED && Coded(rehash, c, t, k) && Found(rehash, c, t, k))
    && Pointers(c, t) == Pointers(c, s)
  }

  lemma RehashStart(rehash: Word -> Word, c: Coding, s: seq<Word>, st: int)
    requires 0 <= st < |s| && s[st] == EMPTY
    ensures HalfRehashed(rehash, c, s, s, st, 0)
  {
    forall k | 0 <= k < |s|
      ensures Steps(st, k, |s|) >= 0
    {
      SameTurn(st, k, k, |s|);
    }
  }

  lemma RehashEnd(rehash: Word -> Word, c: Coding, s: seq<Word>, t: seq<Word>, st: int)
    requires CodingOk(c) && |s| == Pow2(c.bits) && HalfRehashed(rehash, c, s, t, st, |s|)
    ensures AllCoded(rehash, c, t) && AllFound(rehash, c, t) && Pointers(c, t) == Pointers(c, s) && Tombs(t) == 0
  {
    hide CodingOk, Coded, Found;
    forall k | 0 <= k < |s|
      ensures t[k] != DELETED && Coded(rehash, c, t, k) && Found(rehash, c, t, k)
    {
      SameTurn(st, k, k, |s|);
    }
    NoTombs(t);
  }

  /** Bucket h, the next of the walk, is empty, or holds an entry in its home bucket. */
  lemma RehashKeep(rehash: Word -> Word, c: Coding, s: seq<Word>, t: seq<Word>, st: int, i: int, h: int)
    requires AllCoded(rehash, c, s) && HalfRehashed(rehash, c, s, t, st, i)
    requires 0 <= h < |s| && Steps(st, h, |s|) == i
    requires t[h] == EMPTY || (Live(t[h]) && t[h] * c.perfect != {})
    ensures HalfRehashed(rehash, c, s, t, st, i + 1)
  {
    assert t[h] == s[h] && Coded(rehash, c, s, h);
    hide Encode, Raw, CodingOk, Home, Pointers;
    if Live(t[h]) {
      var p := Raw(c, t[h]);
      RawFits(c, s[h]);
      EncodeDecode(c, p, rehash(p), h == Home(c, rehash(p)));
    }
    forall k | 0 <= k < |s| && Steps(st, k, |s|) < i + 1
      ensures t[k] != DELETED && Coded(rehash, c, t, k) && Found(rehash, c, t, k)
    {
      SameTurn(st, k, h, |s|);
    }
  }

  /** Emptying a bucket ahead of the walk leaves what has been put in order. */
  lemma StillFound(rehash: Word -> Word, c: Coding, s: seq<Word>, t: seq<Word>, st: int, i: int, h: int, k: int)
    requires HalfRehashed(rehash, c, s, t, st, i) && |s| == Pow2(c.bits)
    requires 0 <= h < |s| && Steps(st, h, |s|) >= i
    requires 0 <= k < |s| && Steps(st, k, |s|) < i
    ensures t[k] != DELETED && Coded(rehash, c, t[h := EMPTY], k) && Found(rehash, c, t[h := EMPTY], k)
  {
    hide Encode, Raw, CodingOk, Pointers;
    if Live(t[k]) {
      var home := Home(c, rehash(Raw(c, t[k])));
      HomeInTable(c, s, rehash(Raw(c, t[k])));
      if Between(home, h, k) {
        Turned(st, home, h, k, |s|);
      }
    }
  }

  lemma RehashTombstone(rehash: Word -> Word, c: Coding, s: seq<Word>, t: seq<Word>, st: int, i: int, h: int)
    requires HalfRehashed(rehash, c, s, t, st, i) && |s| == Pow2(c.bits)
    requires 0 <= h < |s| && Steps(st, h, |s|) == i && t[h] == DELETED
    ensures HalfRehashed(rehash, c, s, t[h := EMPTY], st, i + 1)
  {
    PointersUpdate(c, t, h, EMPTY);
    var t' := t[h := EMPTY];
    hide Encode, Raw, CodingOk, Pointers;
    forall k | 0 <= k < |s| && Steps(st, k, |s|) < i + 1
      ensures t'[k] != DELETED && Coded(rehash, c, t', k) && Found(rehash, c, t', k)
    {
      SameTurn(st, k, h, |s|);
      if k != h {
        StillFound(rehash, c, s, t, st, i, h, k);
      }
    }
  }

  /** The entry of bucket h is taken out and added again, at h or earlier. */
  lemma RehashMove(rehash: Word -> Word, c: Coding, s: seq<Word>, t: seq<Word>, st: int, i: int, h: int, j: int)
    requires AllCoded(rehash, c, s) && AllFound(rehash, c, s) && HalfRehashed(rehash, c, s, t, st, i)
    requires 0 <= h < |s| && Steps(st, h, |s|) == i && Live(t[h])
    requires var p := Raw(c, t[h]);
             FirstFree(t[h := EMPTY], Home(c, rehash(p)), j) && Live(Encode(c, p, rehash(p), j == Home(c, rehash(p))))
    ensures var p := Raw(c, t[h]);
            HalfRehashed(rehash, c, s, t[h := EMPTY][j := Encode(c, p, rehash(p), j == Home(c, rehash(p)))], st, i + 1)
  {
    var p := Raw(c, t[h]);
    var home := Home(c, rehash(p));
    var e := Encode(c, p, rehash(p), j == home);
    var t1 := t[h := EMPTY];
    var t2 := t1[j := e];
    hide *;
    HalfAt(rehash, c, s, t, st, i, h);
    NotPastStart(rehash, c, s, st, h);
    CodedPlaced(rehash, c, t1, p, j);
    FreeThere(t1, home, j);
    MovedPointers(c, t, h, j, e);
    MoveGoal(st, home, h, j, t1);
    forall k | 0 <= k < |s| && Steps(st, k, |s|) < i + 1
      ensures InOrder(rehash, c, t2, k)
    {
      MovedInOrder(rehash, c, s, t, t1, t2, st, i, h, j, e, k);
    }
    HalfMore(rehash, c, s, t, t2, st, i, h, j);
  }

  lemma MovedInOrder(rehash: Word -> Word, c: Coding, s: seq<Word>, t: seq<Word>, t1: seq<Word>, t2: seq<Word>,
                     st: int, i: int, h: int, j: int, e: Word, k: int)
    requires HalfRehashed(rehash, c, s, t, st, i) && |s| == |t| == Pow2(c.bits) && 0 <= st < |s|
    requires 0 <= h < |s| && Steps(st, h, |s|) == i && 0 <= j < |s|
    requires t1 == t[h := EMPTY] && t2 == t1[j := e] && Live(e) && e != DELETED
    requires Coded(rehash, c, t2, j) && Found(rehash, c, t2, j)
    requires 0 <= k < |s| && Steps(st, k, |s|) < i + 1
    ensures InOrder(rehash, c, t2, k)
  {
    hide *;
    SameTurn(st, k, h, |s|);
    if k == j {
      InOrderIs(rehash, c, t2, k);
    } else if k != h {
      StillFound(rehash, c, s, t, st, i, h, k);
      KeptByMove(rehash, c, t1, j, e, k);
    } else {
      EmptyKept(rehash, c, t2, k);
    }
  }

  ghost predicate InOrder(rehash: Word -> Word, c: Coding, t: seq<Word>, k: int)
    requires 0 <= k < |t|
  {
    t[k] != DELETED && Coded(rehash, c, t, k) && Found(rehash, c, t, k)
  }

  lemma InOrderIs(rehash: Word -> Word, c: Coding, t: seq<Word>, k: int)
    requires 0 <= k < |t| && t[k] != DELETED && Coded(rehash, c, t, k) && Found(rehash, c, t, k)
    ensures InOrder(rehash, c, t, k)
  {
  }

  lemma HalfAt(rehash: Word -> Word, c: Coding, s: seq<Word>, t: seq<Word>, st: int, i: int, h: int)
    requires AllCoded(rehash, c, s) && HalfRehashed(rehash, c, s, t, st, i)
    requires 0 <= h < |s| && Steps(st, h, |s|) == i && Live(t[h])
    ensures CodingOk(c) && |s| == |t| == Pow2(c.bits) && t[h] == s[h] && 0 <= st < |s| && s[st] == EMPTY == t[st]
    ensures st != h
    ensures Live(Raw(c, t[h])) && Fits(c, Raw(c, t[h]))
  {
    assert Coded(rehash, c, s, h);
    hide Encode, Raw, Pointers;
    RawFits(c, s[h]);
  }

  lemma FreeThere(t: seq<Word>, home: int, j: int)
    requires FirstFree(t, home, j)
    ensures 0 <= home < |t| && 0 <= j < |t| && !Live(t[j])
  {
  }

  lemma NotPastStart(rehash: Word -> Word, c: Coding, s: seq<Word>, st: int, h: int)
    requires AllFound(rehash, c, s) && 0 <= st < |s| && 0 <= h < |s| && s[st] == EMPTY && Live(s[h])
    ensures !Between(Home(c, rehash(Raw(c, s[h]))), st, h)
  {
    hide Raw, Home, Live;
    assert Found(rehash, c, s, h);
  }

  lemma HalfMore(rehash: Word -> Word, c: Coding, s: seq<Word>, t: seq<Word>, t2: seq<Word>, st: int, i: int, h: int,
                 j: int)
    requires HalfRehashed(rehash, c, s, t, st, i) && |t2| == |s| && 0 <= j < |s| && 0 <= h < |s|
    requires Steps(st, h, |s|) == i && Steps(st, j, |s|) <= i && h != st && j != st
    requires forall k | 0 <= k < |s| && k != h && k != j :: t2[k] == t[k]
    requires forall k | 0 <= k < |s| && Steps(st, k, |s|) < i + 1 :: InOrder(rehash, c, t2, k)
    requires Pointers(c, t2) == Pointers(c, t)
    ensures HalfRehashed(rehash, c, s, t2, st, i + 1)
  {
    hide Steps, Pointers, Coded, Found;
    forall k | 0 <= k < |s| && Steps(st, k, |s|) < i + 1
      ensures t2[k] != DELETED && Coded(rehash, c, t2, k) && Found(rehash, c, t2, k)
    {
      assert InOrder(rehash, c, t2, k);
    }
  }

  lemma KeptByMove(rehash: Word -> Word, c: Coding, t: seq<Word>, j: int, e: Word, k: int)
    requires 0 <= j < |t| && 0 <= k < |t| && k != j && Live(e) && Coded(rehash, c, t, k) && Found(rehash, c, t, k)
    ensures t[k] != DELETED ==> InOrder(rehash, c, t[j := e], k)
  {
    hide Encode, Raw, Live, Home, Reaches;
    if Live(t[k]) {
      ReachesFilled(t, j, e, Home(c, rehash(Raw(c, t[k]))), k);
    }
  }

  lemma EmptyKept(rehash: Word -> Word, c: Coding, t: seq<Word>, k: int)
    requires 0 <= k < |t| && t[k] == EMPTY
    ensures InOrder(rehash, c, t, k)
  {
  }

  lemma MoveGoal(st: int, home: int, h: int, j: int, t1: seq<Word>)
    requires 0 <= st < |t1| && 0 <= h < |t1| && FirstFree(t1, home, j) && t1[h] == EMPTY && t1[st] == EMPTY && st != h
    requires !Between(home, st, h)
    ensures j != st && Steps(st, j, |t1|) <= Steps(st, h, |t1|)
  {
    OneIsFirst(home, h, j);
    if j != h {
      Turned(st, home, j, h, |t1|);
    }
  }

  lemma MovedPointers(c: Coding, t: seq<Word>, h: int, j: int, e: Word)
    requires 0 <= h < |t| && 0 <= j < |t| && Live(t[h]) && !Live(t[h := EMPTY][j])
    requires Live(e) && Raw(c, e) == Raw(c, t[h])
    ensures Pointers(c, t[h := EMPTY][j := e]) == Pointers(c, t)
  {
    PointersUpdate(c, t, h, EMPTY);
    PointersUpdate(c, t[h := EMPTY], j, e);
  }

  // ---------- When an addition to an empty table fails ----------

  lemma NoneLiveInvalid(c: Coding, s: seq<Word>, p: Word, h: Word)
    requires CodingOk(c) && |s| == Pow2(c.bits) && Pointers(c, s) == multiset{}
    ensures LooksInvalid(c, s, p, h) <==> !Live(Encode(c, p, h, true))
    ensures LooksInvalid(c, s, p, h) ==> c.perfect == {}
  {
    NoneLive(c, s);
    HomeInTable(c, s, h);
    hide Encode, Live, CodingOk;
    assert FirstFree(s, Home(c, h), Home(c, h));
    LooksInvalidThere(c, s, p, h, Home(c, h));
    if c.perfect != {} {
      PerfectIsLive(c, p, h);
    }
  }

  /** Where at most the lowest bit is shared there is always a bit to see. */
  lemma LowestMaskLive(c: Coding, p: Word, h: Word, atHome: bool)
    requires Live(p) && forall i | i in c.mask :: i == 0
    ensures Live(Encode(c, p, h, atHome))
  {
    hide Spare;
    var i := AboveLowest(p);
    assert i in Encode(c, p, h, atHome);
  }
}
