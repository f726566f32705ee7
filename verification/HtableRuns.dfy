/** Two runs of the hash table by calls that its interface offers, neither of which ends as it should. */
module HtableRuns {
  import opened Basics
  import opened HtableWords
  import opened HtableProbe
  import opened Htable

  // ---------- An addition that ends in the failing assertion ----------

  const SIX: Word := {1, 2}
  const TWELVE: Word := {2, 3}
  const FOUR: Word := {2}

  function SampleHash(p: Word): Word {
    if p == SIX then {40} else {}
  }

  const BOTH: Coding := Coding(2, {}, ALL - {1, 3}, FOUR)

  lemma SixLive(c: Coding, m: multiset<Word>)
    requires c.bits > 0 && 40 in c.mask && 40 !in c.perfect && m == multiset{SIX}
    ensures AlwaysLive(SampleHash, c, m)
  {
    forall q, atHome | q in m
      ensures Live(Encode(c, q, SampleHash(q), atHome))
    {
      assert SampleHash(q) == {40} && 40 !in ShiftRight({40}, c.bits);
      assert 40 in HashPtrBits(c, {40});
      assert 40 in Encode(c, q, {40}, atHome);
    }
  }

  lemma TwelveLive()
    ensures AlwaysLive(SampleHash, BOTH, multiset{TWELVE})
  {
    forall q, atHome | q in multiset{TWELVE}
      ensures Live(Encode(BOTH, q, SampleHash(q), atHome))
    {
      assert 3 in Encode(BOTH, q, SampleHash(q), atHome);
    }
  }

  lemma SixAlone(c: Coding)
    requires c == Coding(1, PerfectMask(0), ALL, EMPTY)
    ensures !Fits(c, SIX) && SIX * ALL == SIX
  {
    assert 1 in SIX * c.mask;
  }

  /** The two pointers differ in bits 1 and 3, of which bit 1 was the perfect bit. */
  lemma SixAndTwelve(c: Coding)
    requires c == Coding(2, PerfectMask(0), ALL, SIX)
    ensures !Fits(c, TWELVE) && Unmask(c, Difference(c, TWELVE)) == BOTH
  {
    assert Difference(c, TWELVE) == {1, 3};
    assert 1 in c.perfect * {1, 3};
    assert 3 in TWELVE * c.mask && 3 !in SIX;
  }

  lemma FourIsHidden()
    ensures Live(FOUR) && Fits(BOTH, FOUR) && !Live(Encode(BOTH, FOUR, SampleHash(FOUR), true))
  {
    assert 1 in SIX && 1 !in FOUR;
    assert SampleHash(FOUR) == {} && ShiftRight({}, 2) == {};
    assert Encode(BOTH, FOUR, {}, true) == {};
  }

  lemma Sizes()
    ensures HtMax(0) == 0 && HtMax(1) == 1 && HtMax(2) == 3 && HtMaxDeleted(0) == 0 && HtMaxDeleted(1) == 0
  {
    assert Pow2(1) == 2 && Pow2(2) == 4;
  }

  /** Two pointers are added, so that the mask loses two bits, and the perfect bit with them. */
  method SixThenTwelve() returns (ht: HTable)
    ensures fresh(ht) && fresh(ht.table) && ht.rehash == SampleHash && ht.Valid()
    ensures ht.Code() == BOTH && ht.deleted == 0 && ht.Contents() == multiset{SIX, TWELVE}
  {
    hide AllCoded, AllFound, Pointers, Tombs, Encode, AlwaysLive;
    hide Unmask, Difference, Fits, HtMax, HtMaxDeleted, SampleHash;
    Sizes();
    assert Live(SIX) && Live(TWELVE);
    ht := new HTable(SampleHash);
    NobodyLive(SampleHash, ht.Contents(), 0);
    SixAlone(ht.RoomCode());
    var r1 := ht.HtableAdd(SampleHash(SIX), SIX);
    assert r1 == Added && ht.Code() == Coding(1, PerfectMask(0), ALL, SIX);
    SixAndTwelve(ht.Code().(bits := 2));
    SixLive(ht.RoomCode(), ht.Contents());
    SixLive(BOTH, ht.Contents());
    TwelveLive();
    var r2 := ht.HtableAdd(SampleHash(TWELVE), TWELVE);
    assert r2 == Added;
  }

  /** Both are deleted again, and all that is set in a third pointer is common to them: adding it fails. */
  method FailingRun() returns (last: AddOutcome)
    ensures last == AssertFails
  {
    hide AllCoded, AllFound, Pointers, Tombs, Encode, AlwaysLive;
    hide Unmask, Difference, Fits, HtMax, HtMaxDeleted, SampleHash;
    Sizes();
    var ht := SixThenTwelve();
    var found1 := ht.HtableDel(SampleHash(SIX), SIX);
    var found2 := ht.HtableDel(SampleHash(TWELVE), TWELVE);
    assert ht.Contents() == multiset{};
    FourIsHidden();
    last := ht.HtableAdd(SampleHash(FOUR), FOUR);
  }

  // ---------- An addition that garbles an entry ----------

  const P32: Word := {5}
  const P33: Word := {0, 5}
  const P34: Word := {1, 5}
  const P96: Word := {5, 6}

  function OtherHash(p: Word): Word {
    if p == P32 || p == P33 then {2} else if p == P34 then {1} else {}
  }

  /** The coding when one, two and three of them have been added, and what the fourth needs. */
  const ONE: Coding := Coding(1, PerfectMask(0), ALL, P32)
  const TWO: Coding := Coding(2, PerfectMask(0), ALL - {0}, P32)
  const THREE: Coding := Coding(2, {}, ALL - {0, 1}, P32)
  const FOUR_OF_THEM: Coding := Coding(3, {2}, ALL - {0, 1}, P32)

  lemma Codings()
    ensures !Fits(Coding(1, PerfectMask(0), ALL, EMPTY), P32) && P32 * ALL == P32
    ensures Grown(ONE) == ONE.(bits := 2)
    ensures !Fits(Grown(ONE), P33) && Unmask(Grown(ONE), Difference(Grown(ONE), P33)) == TWO
    ensures !Fits(TWO, P34) && Unmask(TWO, Difference(TWO, P34)) == THREE
    ensures Grown(THREE) == FOUR_OF_THEM
  {
    assert 5 in P32 * ALL;
    assert 0 in P33 * ALL && 1 in P34 * (ALL - {0});
    assert Difference(Grown(ONE), P33) == {0};
    assert Difference(TWO, P34) == {1} && 1 in TWO.perfect * {1};
    assert FirstBit(ALL - {0, 1}, 0) == FirstBit(ALL - {0, 1}, 1) == {2};
  }

  lemma P32And33Live(c: Coding, m: multiset<Word>)
    requires c.bits == 2 && 2 in c.mask && 2 !in c.perfect && forall q | q in m :: q == P32 || q == P33
    ensures AlwaysLive(OtherHash, c, m)
  {
    forall q, atHome | q in m
      ensures Live(Encode(c, q, OtherHash(q), atHome))
    {
      assert OtherHash(q) == {2} && 2 !in ShiftRight({2}, 2);
      assert 2 in HashPtrBits(c, {2});
      assert 2 in Encode(c, q, {2}, atHome);
    }
  }

  lemma P34Live(c: Coding)
    requires 1 !in c.mask
    ensures AlwaysLive(OtherHash, c, multiset{P34})
  {
    forall q, atHome | q in multiset{P34}
      ensures Live(Encode(c, q, OtherHash(q), atHome))
    {
      assert 1 in Encode(c, q, OtherHash(q), atHome);
    }
  }

  // ---------- The table when they are all in it ----------

  ghost predicate Three(s: seq<Word>) {
    && AllCoded(OtherHash, THREE, s) && AllFound(OtherHash, THREE, s)
    && Pointers(THREE, s) == multiset{P32, P33, P34} && Tombs(s) == 0
  }

  lemma Homes()
    ensures Low({2}, 2) == 0 && Low({1}, 2) == 2 && Low({2}, 3) == 4 && Pow2(2) == 4
  {
    assert Low({2}, 0) == 0 && Low({2}, 1) == 0 && Low({1}, 0) == 0 && Low({1}, 1) == 0;
    assert Pow2(1) == 2;
  }

  lemma Bucket(c: Coding, s: seq<Word>, p: Word) returns (b: nat)
    requires p in Pointers(c, s)
    ensures b < |s| && Live(s[b]) && Raw(c, s[b]) == p
  {
    PointersIn(c, s, p);
    b :| 0 <= b < |s| && Live(s[b]) && Raw(c, s[b]) == p;
  }

  /** The first two are in buckets 0 and 1, the third is in bucket 2, and bucket 3 is empty. */
  lemma WhereTheyAre(s: seq<Word>)
    requires Three(s)
    ensures |s| == 4 && s[3] == EMPTY
    ensures Live(s[2]) && Raw(THREE, s[2]) == P34
    ensures forall b :: 0 <= b < 2 ==> Live(s[b]) && Raw(THREE, s[b]) in {P32, P33}
  {
    hide Raw, Pointers, Tombs, Live, Encode, AllCoded;
    assert |s| == 4 by {
      Homes();
      FourBuckets(s);
    }
    var b1 := Bucket(THREE, s, P32);
    var b2 := Bucket(THREE, s, P33);
    var b3 := Bucket(THREE, s, P34);
    var d := EmptyBucket(THREE, s);
    Distinct(s, b1, b2, b3);
    Homes();
    assert Found(OtherHash, THREE, s, b1) && Found(OtherHash, THREE, s, b2) && Found(OtherHash, THREE, s, b3);
    DeadEmpty(s, d);
    assert !Between(0, d, b1) && !Between(0, d, b2) && !Between(2, d, b3);
  }

  lemma FourBuckets(s: seq<Word>)
    requires AllCoded(OtherHash, THREE, s) && Pow2(2) == 4
    ensures |s| == 4
  {
  }

  lemma Distinct(s: seq<Word>, i: nat, j: nat, k: nat)
    requires i < |s| && j < |s| && k < |s|
    requires Raw(THREE, s[i]) == P32 && Raw(THREE, s[j]) == P33 && Raw(THREE, s[k]) == P34
    ensures i != j && j != k && i != k
  {
    assert 0 in P33 && 0 !in P32 && 0 !in P34 && 1 in P34;
  }

  lemma DeadEmpty(s: seq<Word>, d: nat)
    requires d < |s| && s[d] == EMPTY
    ensures !Live(s[d])
  {
  }

  /** In the larger table 32 and 33 have the same home, and nothing to be seen by anywhere else. */
  lemma HiddenAwayFromHome(p: Word)
    requires p == P32 || p == P33
    ensures !Live(Encode(FOUR_OF_THEM, p, OtherHash(p), false)) && Home(FOUR_OF_THEM, OtherHash(p)) == 4
  {
    Homes();
    assert ShiftRight({2}, 3) == {};
    assert HashPtrBits(FOUR_OF_THEM, {2}) == {};
    assert p - FOUR_OF_THEM.mask <= {0};
    assert Encode(FOUR_OF_THEM, p, {2}, false) == p * {0};
    assert p * {0} == if p == P32 then EMPTY else DELETED;
  }

  lemma SpareOf34()
    ensures HashPtrBits(THREE, OtherHash(P34)) == {}
  {
    assert OtherHash(P34) == {1} && ShiftRight({1}, 2) == {};
  }

  lemma OnlyBitOne(s: seq<Word>)
    requires AllCoded(OtherHash, THREE, s) && |s| == 4 && Live(s[2]) && Raw(THREE, s[2]) == P34
    ensures s[2] == {1}
  {
    hide OtherHash, HashPtrBits;
    assert Coded(OtherHash, THREE, s, 2);
    SpareOf34();
  }

  /** The word of 34 has no bit 5; without that bit in the mask it is decoded to 2. */
  lemma WordOf34(s: seq<Word>)
    requires AllCoded(OtherHash, THREE, s) && |s| == 4 && Live(s[2]) && Raw(THREE, s[2]) == P34
    ensures 5 !in s[2] && Raw(Unmask(FOUR_OF_THEM, {5}), s[2]) == {1}
  {
    OnlyBitOne(s);
  }

  lemma SameRaw(e: Word)
    ensures Raw(FOUR_OF_THEM, e) == Raw(THREE, e)
  {
  }

  /** The entry of bucket 0 goes to its home. */
  lemma FirstMoved(s: seq<Word>) returns (e: Word)
    requires |s| == 4 && Live(s[0]) && Raw(THREE, s[0]) in {P32, P33}
    ensures !Invalid(OtherHash, FOUR_OF_THEM, s, 0) && Live(e)
    ensures Filled(OtherHash, FOUR_OF_THEM, s, 1) == seq(8, _ => EMPTY)[4 := e]
  {
    hide Encode, Raw, OtherHash, Home;
    SameRaw(s[0]);
    var p := Raw(FOUR_OF_THEM, s[0]);
    var t := Filled(OtherHash, FOUR_OF_THEM, s, 0);
    HiddenAwayFromHome(p);
    assert FirstFree(t, 4, 4);
    PerfectIsLive(FOUR_OF_THEM, p, OtherHash(p));
    LooksInvalidThere(FOUR_OF_THEM, t, p, OtherHash(p), 4);
    PutThere(FOUR_OF_THEM, t, p, OtherHash(p), 4);
    e := Encode(FOUR_OF_THEM, p, OtherHash(p), true);
  }

  /** The entry of bucket 1 finds its home taken. */
  lemma SecondInvalid(s: seq<Word>, e: Word)
    requires |s| == 4 && Live(s[1]) && Raw(THREE, s[1]) in {P32, P33} && Live(e)
    requires Filled(OtherHash, FOUR_OF_THEM, s, 1) == seq(8, _ => EMPTY)[4 := e]
    ensures Invalid(OtherHash, FOUR_OF_THEM, s, 1)
  {
    hide Encode, Raw, OtherHash, Home;
    SameRaw(s[1]);
    var p := Raw(FOUR_OF_THEM, s[1]);
    var t := Filled(OtherHash, FOUR_OF_THEM, s, 1);
    HiddenAwayFromHome(p);
    assert FirstFree(t, 4, 5);
    LooksInvalidThere(FOUR_OF_THEM, t, p, OtherHash(p), 5);
  }

  lemma OneIsGarbled(s: seq<Word>)
    requires Three(s)
    ensures Garbles(OtherHash, FOUR_OF_THEM, s)
  {
    hide Pointers, Tombs, AllFound, AllCoded, Encode, OtherHash, Live, Invalid, Raw;
    WhereTheyAre(s);
    WordOf34(s);
    var e := FirstMoved(s);
    SecondInvalid(s, e);
    assert FirstInvalid(OtherHash, FOUR_OF_THEM, s, 1) && Highest(5, FOUR_OF_THEM.common) && !AllHave(s, 1, |s|, 5);
  }

  // ---------- The run ----------

  method TwoAdditions() returns (ht: HTable)
    ensures fresh(ht) && fresh(ht.table) && ht.rehash == OtherHash && ht.Valid()
    ensures ht.Code() == TWO && ht.deleted == 0 && ht.Contents() == multiset{P32, P33}
  {
    hide AllCoded, AllFound, Pointers, Tombs, Encode, AlwaysLive, Garbles;
    hide Unmask, Difference, Fits, HtMax, HtMaxDeleted, OtherHash, Grown;
    Sizes();
    Codings();
    assert Live(P32) && Live(P33);
    ht := new HTable(OtherHash);
    NobodyLive(OtherHash, ht.Contents(), 0);
    GrownOnce();
    var r1 := ht.HtableAdd(OtherHash(P32), P32);
    assert r1 == Added && ht.Code() == ONE;
    P32And33Live(Grown(ONE), ht.Contents());
    P32And33Live(TWO, ht.Contents());
    P32And33Live(TWO, multiset{P33});
    var r2 := ht.HtableAdd(OtherHash(P33), P33);
    assert r2 == Added;
  }

  method ThreeAdditions() returns (ht: HTable)
    ensures fresh(ht) && fresh(ht.table) && ht.rehash == OtherHash && ht.Valid()
    ensures ht.Code() == THREE && ht.deleted == 0 && ht.Contents() == multiset{P32, P33, P34}
  {
    hide AllCoded, AllFound, Pointers, Tombs, Encode, AlwaysLive, Garbles;
    hide Unmask, Difference, Fits, HtMax, HtMaxDeleted, OtherHash, Grown;
    Sizes();
    Codings();
    assert Live(P34);
    ht := TwoAdditions();
    P32And33Live(TWO, ht.Contents());
    P32And33Live(THREE, ht.Contents());
    P34Live(THREE);
    var r3 := ht.HtableAdd(OtherHash(P34), P34);
    assert r3 == Added;
  }

  lemma GrownOnce()
    ensures Grown(Coding(0, PerfectMask(0), ALL, EMPTY)) == Coding(1, PerfectMask(0), ALL, EMPTY)
  {
  }

  /** The fourth addition has to double the table: 33, or 32, looks invalid on the way, bit 5 leaves the mask,
      and the word of 34 is decoded to 2. */
  method GarblingRun() returns (last: AddOutcome)
    ensures last == Garbled
  {
    hide AllCoded, AllFound, Pointers, Tombs, Encode, AlwaysLive, Garbles;
    hide Unmask, Difference, Fits, HtMax, HtMaxDeleted, OtherHash, Grown;
    Sizes();
    var ht := ThreeAdditions();
    Codings();
    OneIsGarbled(ht.table[..]);
    assert Live(P96);
    last := ht.HtableAdd(OtherHash(P96), P96);
  }
}
