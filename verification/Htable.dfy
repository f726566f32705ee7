/** The hash table object: adding, deleting, looking up, doubling and rehashing in place. */
module Htable {
  import opened Basics
  import opened HtableWords
  import opened HtableProbe

  /** How an addition ends.  The other two ways are the program's own: an assertion that fails, and a
      move to a larger table in which an entry is decoded to a pointer that nobody has added. */
  datatype AddOutcome = Added | AssertFails | Garbled

  datatype Candidate = Null | Pointer(p: Word)

  /** Fill to 87.5%. */
  function HtMax(bits: nat): nat {
    7 * Pow2(bits) / 8
  }

  /** Clean deleted if there are more than 12.5%. */
  function HtMaxDeleted(bits: nat): nat {
    Pow2(bits) / 8
  }

  /** Filled to seven eighths, and cleaned of tombstones above one eighth, both rounded down. */
  lemma Eighths(bits: nat)
    ensures 8 * HtMax(bits) <= 7 * Pow2(bits) < 8 * HtMax(bits) + 8
    ensures 8 * HtMaxDeleted(bits) <= Pow2(bits) < 8 * HtMaxDeleted(bits) + 8
  {
  }

  lemma MaxFacts(bits: nat)
    ensures HtMax(bits) < Pow2(bits)
    ensures HtMax(bits) + 1 <= HtMax(bits + 1)
    ensures HtMax(0) == 0
  {
    Pow2Positive(bits);
    if bits == 0 {
      assert Pow2(1) == 2;
    } else {
      Pow2Positive(bits - 1);
    }
  }

  lemma Pow2Positive(bits: nat)
    ensures Pow2(bits) >= 1 && Pow2(bits + 1) == 2 * Pow2(bits)
  {
  }

  /** The coding that fits p, in an empty table or one that is not. */
  function Refit(c: Coding, empty: bool, p: Word): Coding {
    if Fits(c, p) then c
    else if empty then Coding(c.bits, PerfectMask(0), ALL, p * ALL)
    else Unmask(c, Difference(c, p))
  }

  /** The lowest bit in the mask from place i + 1 on. */
  function FirstBit(mask: Word, i: nat): Word
    decreases WIDTH - i
  {
    if i + 1 >= WIDTH then {} else if i + 1 in mask then {i + 1} else FirstBit(mask, i + 1)
  }

  /** The coding of a table of twice the size: a perfect bit that was lost comes back. */
  function Grown(c: Coding): Coding {
    c.(bits := c.bits + 1, perfect := if c.perfect == {} then FirstBit(c.mask, 0) else c.perfect)
  }

  lemma {:induction false} NoFirstBit(mask: Word, i: nat)
    ensures FirstBit(mask, i) == {} ==> forall j :: i < j < WIDTH ==> j !in mask
    decreases WIDTH - i
  {
    if i + 1 < WIDTH {
      NoFirstBit(mask, i + 1);
    }
  }

  ghost predicate Highest(k: int, w: Word) {
    0 < k < WIDTH && k in w && forall j | k < j < WIDTH :: j !in w
  }

  /** The table after p has been put into its first free bucket. */
  ghost function Put(c: Coding, t: seq<Word>, p: Word, h: Word): seq<Word> {
    if j :| FirstFree(t, Home(c, h), j) then t[j := Encode(c, p, h, j == Home(c, h))] else t
  }

  /** The larger table when the entries of the first n buckets of s are in it. */
  ghost function Filled(rehash: Word -> Word, c: Coding, s: seq<Word>, n: nat): seq<Word>
    requires n <= |s|
  {
    if n == 0 then seq(2 * |s|, _ => EMPTY)
    else
      var t := Filled(rehash, c, s, n - 1);
      if Live(s[n - 1]) then Put(c, t, Raw(c, s[n - 1]), rehash(Raw(c, s[n - 1]))) else t
  }

  /** The entry of bucket b would look invalid in the larger table, with those before it in place. */
  ghost predicate Invalid(rehash: Word -> Word, c: Coding, s: seq<Word>, b: nat) {
    && b < |s| && Live(s[b])
    && LooksInvalid(c, Filled(rehash, c, s, b), Raw(c, s[b]), rehash(Raw(c, s[b])))
  }

  ghost predicate NoneInvalid(rehash: Word -> Word, c: Coding, s: seq<Word>, n: nat) {
    forall b: nat :: b < n ==> !Invalid(rehash, c, s, b)
  }

  ghost predicate FirstInvalid(rehash: Word -> Word, c: Coding, s: seq<Word>, b: nat) {
    Invalid(rehash, c, s, b) && NoneInvalid(rehash, c, s, b)
  }

  /** The words from bucket b + 1 up to n have bit k. */
  ghost predicate AllHave(s: seq<Word>, b: nat, n: nat, k: int) {
    forall i :: b < i < n && i < |s| && Live(s[i]) ==> k in s[i]
  }

  /** An entry that looks invalid makes the highest common bit leave the mask, and a word after it lacks that bit. */
  ghost predicate Garbles(rehash: Word -> Word, c: Coding, s: seq<Word>) {
    exists b: nat, k :: FirstInvalid(rehash, c, s, b) && Highest(k, c.common) && !AllHave(s, b, |s|, k)
  }

  /** By its spare bits the entry of bucket k may have this hash. */
  ghost predicate Possible(c: Coding, s: seq<Word>, hash: Word, k: int) {
    0 <= k < |s| && Live(s[k]) && ExtraBits(c, s[k]) == Spare(c, hash, k == Home(c, hash))
  }

  /** Bucket off has the first possible entry on the way from the hash's home that is wanted, and p is its pointer. */
  ghost predicate FirstWanted(c: Coding, s: seq<Word>, hash: Word, wanted: Word -> bool, off: int, p: Word) {
    && Possible(c, s, hash, off) && Reaches(s, Home(c, hash), off) && p == Raw(c, s[off]) && wanted(p)
    && forall k | 0 <= k < |s| && Between(Home(c, hash), k, off) :: !(Possible(c, s, hash, k) && wanted(Raw(c, s[k])))
  }

  /** Bucket off has the first entry of p on the way from home. */
  ghost predicate FirstHere(c: Coding, s: seq<Word>, hash: Word, off: int, p: Word) {
    && Possible(c, s, hash, off) && Reaches(s, Home(c, hash), off) && p == Raw(c, s[off])
    && forall k | 0 <= k < |s| && Between(Home(c, hash), k, off) :: !PossiblyThis(c, s, hash, k, p)
  }

  ghost predicate PossiblyThis(c: Coding, s: seq<Word>, hash: Word, k: int, p: Word) {
    Possible(c, s, hash, k) && Raw(c, s[k]) == p
  }

  /** Bucket off is emptied, with a tombstone unless the next one is empty. */
  ghost predicate Emptied(s: seq<Word>, deleted: nat, off: int, t: seq<Word>, deleted': nat)
  {
    && 0 <= off < |s|
    && var last := s[Next(off, |s|)] == EMPTY;
       t == s[off := if last then EMPTY else DELETED] && deleted' == deleted + if last then 0 else 1
  }

  class HTable {
    const rehash: Word -> Word
    var bits: nat
    var perfectBitnum: nat
    var elems: nat
    var deleted: nat
    var commonMask: Word
    var commonBits: Word
    var table: array<Word>

    function Code(): Coding
      reads this
    {
      Coding(bits, PerfectMask(perfectBitnum), commonMask, commonBits)
    }

    /** Every live entry decodes, is found from its home bucket, and there is always an empty
        bucket for a probe to end at. */
    ghost predicate Valid()
      reads this, table
    {
      && AllCoded(rehash, Code(), table[..]) && AllFound(rehash, Code(), table[..])
      && perfectBitnum <= NO_PERFECT_BIT
      && elems == |Contents()|
      && Tombs(table[..]) <= deleted
      && elems + deleted <= HtMax(bits)
    }

    /** The pointers added and not deleted. */
    ghost function Contents(): multiset<Word>
      reads this, table
    {
      Pointers(Code(), table[..])
    }

    /** An addition has to double the table first. */
    predicate Doubles()
      reads this
    {
      elems + 1 + deleted > HtMax(bits) && deleted <= HtMaxDeleted(bits)
    }

    function RoomCode(): Coding
      reads this
    {
      if Doubles() then Grown(Code()) else Code()
    }

    /** The coding that an addition of p needs. */
    function Settled(p: Word): Coding
      reads this
    {
      Refit(RoomCode(), elems == 0, p)
    }

    /** In the course of an addition of p no entry will look invalid. */
    ghost predicate Steady(p: Word)
      reads this, table
    {
      && AlwaysLive(rehash, RoomCode(), Contents())
      && AlwaysLive(rehash, Settled(p), Contents())
      && (elems == 0 || AlwaysLive(rehash, Settled(p), multiset{p}))
    }

    constructor (rehash: Word -> Word)
      ensures Valid() && Contents() == multiset{} && fresh(table) && this.rehash == rehash
      ensures Code() == Coding(0, PerfectMask(0), ALL, EMPTY) && deleted == 0 && perfectBitnum == 0
    {
      this.rehash := rehash;
      bits, perfectBitnum, elems, deleted := 0, 0, 0, 0;
      commonMask, commonBits := ALL, EMPTY;
      table := new Word[1](_ => EMPTY);
      new;
      AllEmpty(Code(), table[..]);
      assert AllCoded(rehash, Code(), table[..]);
      assert AllFound(rehash, Code(), table[..]);
    }

    // ---------- Adding an entry ----------

    /** Put p into the first bucket from its home on that holds no live word; with the perfect
        bit if that is the first. */
    method HtAdd(p: Word, h: Word) returns (i: int)
      requires table.Length == Pow2(bits)
      requires exists d :: 0 <= d < table.Length && !Live(table[d])
      modifies table
      ensures FirstFree(old(table[..]), Home(Code(), h), i)
      ensures table[..] == old(table[..])[i := Encode(Code(), p, h, i == Home(Code(), h))]
    {
      var n := table.Length;
      ghost var d :| 0 <= d < n && !Live(table[d]);
      ghost var home := Home(Code(), h);
      var perfect := PerfectMask(perfectBitnum);
      i := Low(h, bits);
      while Live(table[i])
        invariant 0 <= i < n && table[..] == old(table[..])
        invariant forall k | 0 <= k < n && Between(home, k, i) :: Live(table[k])
        invariant i == home || !Between(home, d, i)
        invariant perfect == if i == home then PerfectMask(perfectBitnum) else {}
        decreases Steps(i, d, n)
      {
        perfect := {};
        i := Next(i, n);
        if i == home {
          assert false;
        }
      }
      table[i] := Hval(Code(), p, HashPtrBits(Code(), h) + perfect);
    }

    // ---------- Changing the common mask ----------

    /** Choose one more bit of p to leave the mask: the highest that is set in p and still in the
        mask, and not the lowest of all. */
    method UnsetAnotherCommonBit(maskdiff: Word, p: Word) returns (maskdiff': Word, ghost i: int)
      requires exists k :: 0 < k < WIDTH && k in p * (commonMask - maskdiff)
      ensures maskdiff' == maskdiff + {i} && 0 < i < WIDTH && i in p * (commonMask - maskdiff)
      ensures forall k | i < k < WIDTH :: k !in p * (commonMask - maskdiff)
    {
      var j := WIDTH - 1;
      while j > 0
        invariant 0 <= j < WIDTH
        invariant forall k | j < k < WIDTH :: k !in p * (commonMask - maskdiff)
      {
        if j in p && j in commonMask - maskdiff {
          break;
        }
        j := j - 1;
      }
      assert j > 0;
      maskdiff', i := maskdiff + {j}, j;
    }

    /** One walk over the table.  If putting bits back makes an entry look invalid, one more of its
        bits must leave the mask, and the walk has to start again. */
    method FixupPass(maskdiff: Word, ghost s: seq<Word>) returns (maskdiff': Word, again: bool)
      requires AllCoded(rehash, Code(), s) && PartlyPutBack(Code(), maskdiff, s, table[..], 0)
      requires maskdiff <= commonMask
      modifies table
      ensures !again ==> maskdiff' == maskdiff && PartlyPutBack(Code(), maskdiff, s, table[..], |s|)
      ensures again ==> maskdiff < maskdiff' <= commonMask && PartlyPutBack(Code(), maskdiff', s, table[..], 0)
      ensures AlwaysLive(rehash, Unmask(Code(), maskdiff), Pointers(Code(), s)) ==> !again
    {
      hide AlwaysLive, Pointers, Unmask, Live, Raw, PutBack, CodingOk, AllCoded, PartlyPutBack;
      ghost var c := Code();
      SameSize(c, maskdiff, s, table[..], 0);
      var n := table.Length;
      var bitsdiff := commonBits * maskdiff;
      var i := 0;
      while i < n
        invariant 0 <= i <= n && Code() == c && PartlyPutBack(c, maskdiff, s, table[..], i)
      {
        PutBackStep(c, maskdiff, s, table[..], i);
        var e := table[i];
        if Live(e) {
          e := (e - maskdiff) + bitsdiff;
          assert e == PutBack(c, maskdiff, table[i]) by {
            PutBackIs(c, maskdiff, table[i]);
          }
          if AlwaysLive(rehash, Unmask(c, maskdiff), Pointers(c, s)) {
            PutBackLive(rehash, c, maskdiff, s, table[..], i);
          }
          if !Live(e) {
            BitToExpose(rehash, c, maskdiff, s, table[..], i);
            var more;
            ghost var k;
            more, k := UnsetAnotherCommonBit(maskdiff, Raw(Code(), e));
            PutBackMore(c, maskdiff, {k}, s, table[..], i);
            assert k in more && k !in maskdiff;
            return more, true;
          }
          ghost var t := table[..][i := e];
          table[i] := e;
          assert table[..] == t;
        }
        i := i + 1;
      }
      return maskdiff, false;
    }

    /** Take bits out of the mask, and as many more as keep every entry looking valid. */
    method FixupTableCommon(maskdiff0: Word)
      requires AllCoded(rehash, Code(), table[..]) && maskdiff0 <= commonMask
      modifies this`commonMask, this`commonBits, this`perfectBitnum, table
      ensures AllCoded(rehash, Code(), table[..])
      ensures Remasked(old(Code()), old(table[..]), Code(), table[..])
      ensures perfectBitnum == old(perfectBitnum) || perfectBitnum == NO_PERFECT_BIT
      ensures exists diff: Word :: maskdiff0 <= diff <= old(commonMask) && Code() == Unmask(old(Code()), diff)
      ensures AlwaysLive(rehash, Unmask(old(Code()), maskdiff0), Pointers(old(Code()), old(table[..]))) ==>
                Code() == Unmask(old(Code()), maskdiff0)
    {
      hide AllCoded, PartlyPutBack, Remasked, AlwaysLive, Pointers;
      ghost var c, s := Code(), table[..];
      PutBackNone(c, maskdiff0, s);
      var maskdiff, again := FixupPass(maskdiff0, s);
      while again
        invariant Code() == c && perfectBitnum == old(perfectBitnum) && maskdiff0 <= maskdiff <= commonMask
        invariant PartlyPutBack(c, maskdiff, s, table[..], if again then 0 else |s|)
        invariant AlwaysLive(rehash, Unmask(c, maskdiff0), Pointers(c, s)) ==> !again && maskdiff == maskdiff0
        decreases commonMask - maskdiff, again
      {
        maskdiff, again := FixupPass(maskdiff, s);
      }
      AllPutBack(rehash, c, maskdiff, s, table[..]);
      PerfectMaskFacts(NO_PERFECT_BIT);
      commonMask := commonMask - maskdiff;
      commonBits := commonBits - maskdiff;
      if PerfectMask(perfectBitnum) * maskdiff != {} {
        perfectBitnum := NO_PERFECT_BIT;
      }
      assert Code() == Unmask(c, maskdiff);
    }

    /** With no entries, every bit of p is common. */
    method ResetCommon(p: Word)
      requires AllCoded(rehash, Code(), table[..]) && Contents() == multiset{}
      modifies this`commonMask, this`commonBits, this`perfectBitnum
      ensures AllCoded(rehash, Code(), table[..]) && AllFound(rehash, Code(), table[..])
      ensures Contents() == multiset{}
      ensures Fits(Code(), p) && Code().perfect != {} && perfectBitnum <= NO_PERFECT_BIT
      ensures Code() == Coding(bits, PerfectMask(0), ALL, p * ALL)
    {
      hide AllCoded, AllFound, Pointers, Live;
      ghost var c, s := Code(), table[..];
      NoneLive(c, s);
      CodingFacts(rehash, c, s);
      commonMask := ALL;
      commonBits := p * commonMask;
      perfectBitnum := 0;
      NothingCoded(rehash, c, Code(), s);
    }

    /** Make the common bits fit pointer p. */
    method UpdateCommon(p: Word)
      requires AllCoded(rehash, Code(), table[..]) && AllFound(rehash, Code(), table[..])
      requires elems == |Contents()|
      modifies this`commonMask, this`commonBits, this`perfectBitnum, table
      ensures AllCoded(rehash, Code(), table[..]) && AllFound(rehash, Code(), table[..])
      ensures Contents() == old(Contents()) && Tombs(table[..]) == old(Tombs(table[..]))
      ensures Fits(Code(), p) && (old(perfectBitnum) <= NO_PERFECT_BIT ==> perfectBitnum <= NO_PERFECT_BIT)
      ensures elems == 0 ==> Code().perfect != {} && Code() == Coding(bits, PerfectMask(0), ALL, p * ALL)
      ensures elems > 0 && AlwaysLive(rehash, Unmask(old(Code()), Difference(old(Code()), p)), old(Contents())) ==>
                Code() == Unmask(old(Code()), Difference(old(Code()), p))
    {
      hide AllCoded, AllFound, Remasked, Pointers, Tombs, Unmask, Fits, AlwaysLive;
      ghost var c, s := Code(), table[..];
      if elems == 0 {
        ResetCommon(p);
        return;
      }
      CodingFacts(rehash, c, s);
      var maskdiff := Xor(commonBits, p * commonMask);
      DifferenceFits(c, p, maskdiff);
      FixupTableCommon(maskdiff);
      RemaskedFound(rehash, c, s, Code(), table[..]);
      ghost var diff: Word :| maskdiff <= diff <= old(commonMask) && Code() == Unmask(c, diff);
      DifferenceFits(c, p, diff);
    }

    /** Add an entry to the table; if it looks invalid, one of its bits must leave the mask first. */
    method AddEntry(p: Word, h: Word) returns (ok: bool)
      requires AllCoded(rehash, Code(), table[..]) && AllFound(rehash, Code(), table[..])
      requires |Contents()| < table.Length
      requires Live(p) && Fits(Code(), p) && h == rehash(p)
      modifies this`commonMask, this`commonBits, this`perfectBitnum, table
      ensures ok ==> AllCoded(rehash, Code(), table[..]) && AllFound(rehash, Code(), table[..])
      ensures ok ==> Contents() == old(Contents()) + multiset{p} && Tombs(table[..]) <= old(Tombs(table[..]))
      ensures old(perfectBitnum) <= NO_PERFECT_BIT ==> perfectBitnum <= NO_PERFECT_BIT
      ensures !ok <==> elems == 0 && LooksInvalid(old(Code()), old(table[..]), p, h)
      ensures !LooksInvalid(old(Code()), old(table[..]), p, h) ==> Code() == old(Code())
      ensures !LooksInvalid(old(Code()), old(table[..]), p, h) ==> table[..] == Put(old(Code()), old(table[..]), p, h)
      ensures ok && LooksInvalid(old(Code()), old(table[..]), p, h) ==>
                exists k :: Highest(k, old(commonBits)) && Code() == Unmask(old(Code()), {k})
    {
      hide AllFound, Remasked, Pointers, Tombs, Unmask, Fits, Live, Encode, Raw, CodingOk, LooksInvalid;
      ghost var c, s := Code(), table[..];
      ghost var d := DeadBucket(c, s);
      var i := HtAdd(p, h);
      ghost var w := Encode(c, p, h, i == Home(c, h));
      LooksInvalidThere(c, s, p, h, i);
      CodingFacts(rehash, c, s);
      PutThere(c, s, p, h, i);
      if Live(table[i]) {
        Placed(rehash, c, s, p, i);
        return true;
      }
      if elems == 0 {
        return false;
      }
      HiddenInNew(c, p, h, i == Home(c, h));
      assert commonMask - {} == commonMask;
      var maskdiff;
      ghost var k;
      maskdiff, k := UnsetAnotherCommonBit({}, p);
      DeadCoded(rehash, c, s, i, w);
      HighestOf(c, p, k);
      ExposedAlwaysLive(rehash, c, s[i := w], k);
      assert maskdiff == {k};
      FixupTableCommon(maskdiff);
      ghost var c', s2 := Code(), table[..];
      ghost var diff: Word :| maskdiff <= diff <= c.mask && c' == Unmask(c, diff);
      FitsUnmasked(c, diff, p);
      UnmaskBitsKept(c, diff);
      StillDead(c, s[i := w], c', s2, i);
      var j := HtAdd(p, h);
      ExposedIsLive(c, diff, p, h, j == Home(c', h), k);
      PlacedLater(rehash, c, s, w, c', s2, p, i, j);
      return true;
    }

    // ---------- Growing and cleaning ----------

    /** If there is no perfect bit, make the lowest bit in the mask, other than bit 0, the new one. */
    method RegainPerfectBit()
      modifies this`perfectBitnum
      requires perfectBitnum <= NO_PERFECT_BIT && CodingOk(Code())
      ensures perfectBitnum <= NO_PERFECT_BIT && CodingOk(Code())
      ensures old(Code()).perfect != {} ==> Code() == old(Code())
      ensures old(Code()).perfect == {} ==> Code() == old(Code()).(perfect := FirstBit(commonMask, 0))
    {
      if perfectBitnum == NO_PERFECT_BIT && commonMask != EMPTY {
        var i := 0;
        while i < WIDTH
          invariant 0 <= i <= WIDTH && perfectBitnum == NO_PERFECT_BIT && CodingOk(Code())
          invariant FirstBit(commonMask, 0) == FirstBit(commonMask, i)
        {
          if commonMask * PerfectMask(i) != EMPTY {
            PerfectMaskInside(commonMask, i);
            perfectBitnum := i;
            break;
          }
          PerfectMaskOutside(commonMask, i);
          i := i + 1;
        }
      } else {
        NoneInEmpty(0);
      }
    }

    /** Add every entry of an old table to this one.  If one looks invalid, a bit leaves the mask, and the words
        of the entries after it may not be decoded rightly any more. */
    method MoveEntries(oldTable: array<Word>, ghost c: Coding) returns (ok: bool)
      requires table != oldTable && AllCoded(rehash, c, oldTable[..]) && 2 * oldTable.Length == table.Length
      requires commonMask == c.mask && commonBits == c.common && perfectBitnum <= NO_PERFECT_BIT
      requires AllCoded(rehash, Code(), table[..]) && AllFound(rehash, Code(), table[..])
      requires Contents() == multiset{} && Tombs(table[..]) == 0 && elems == |Pointers(c, oldTable[..])|
      requires forall i :: 0 <= i < table.Length ==> table[i] == EMPTY
      modifies this`commonMask, this`commonBits, this`perfectBitnum, table
      ensures perfectBitnum <= NO_PERFECT_BIT
      ensures ok ==> AllCoded(rehash, Code(), table[..]) && AllFound(rehash, Code(), table[..])
      ensures ok ==> Contents() == Pointers(c, oldTable[..]) && Tombs(table[..]) == 0
      ensures AlwaysLive(rehash, old(Code()), Pointers(c, oldTable[..])) ==> ok && Code() == old(Code())
      ensures ok <==> !Garbles(rehash, old(Code()), oldTable[..])
    {
      hide AllCoded, AllFound, Pointers, Tombs, Live, Encode, Raw, CodingOk, Fits, AlwaysLive;
      hide LooksInvalid, Moved, Garbles;
      var first := Code();
      ghost var s := oldTable[..];
      CodingFacts(rehash, first, table[..]);
      NoPointers(c);
      NothingMoved(rehash, first, s, table[..]);
      ghost var b, k := 0, 0;
      var i := 0;
      while i < oldTable.Length
        invariant 0 <= i <= oldTable.Length && oldTable[..] == s
        invariant AllCoded(rehash, Code(), table[..]) && AllFound(rehash, Code(), table[..])
        invariant Pointers(Code(), table[..]) == Pointers(c, s[..i]) && Tombs(table[..]) == 0
        invariant perfectBitnum <= NO_PERFECT_BIT && Moved(rehash, first, s, i, Code(), table[..], b, k)
        invariant AlwaysLive(rehash, first, Pointers(c, s)) ==> Code() == first
      {
        var e := oldTable[i];
        PointersPrefix(c, s, i);
        if Live(e) {
          var p := Raw(Code(), e);
          OldEntry(rehash, c, s, i, first);
          if p != Raw(first, e) {
            // The callback is asked for the hash of a pointer that nobody has added.
            MovedWrongly(rehash, first, s, i, Code(), table[..], b, k);
            return false;
          }
          b, k := MoveEntry(p, first, c, s, i, b, k);
        } else {
          MovedNothing(rehash, first, s, i, Code(), table[..], b, k);
        }
        i := i + 1;
      }
      assert s[..i] == s;
      MovedAll(rehash, first, s, Code(), table[..], b, k);
      return true;
    }

    /** Add the entry of bucket i of the old table s. */
    method MoveEntry(p: Word, ghost first: Coding, ghost c: Coding, ghost s: seq<Word>, ghost i: nat,
                     ghost b: nat, ghost k: int) returns (ghost b': nat, ghost k': int)
      requires AllCoded(rehash, Code(), table[..]) && AllFound(rehash, Code(), table[..])
      requires perfectBitnum <= NO_PERFECT_BIT && Moved(rehash, first, s, i, Code(), table[..], b, k)
      requires AllCoded(rehash, c, s) && first.mask == c.mask && first.common == c.common
      requires i < |s| < table.Length && |Contents()| <= i && Live(s[i]) && elems == |Pointers(c, s)|
      requires p == Raw(first, s[i]) == Raw(c, s[i]) == Raw(Code(), s[i]) && Live(p) && Fits(first, p)
      modifies this`commonMask, this`commonBits, this`perfectBitnum, table
      ensures AllCoded(rehash, Code(), table[..]) && AllFound(rehash, Code(), table[..])
      ensures Contents() == old(Contents()) + multiset{p} && Tombs(table[..]) <= old(Tombs(table[..]))
      ensures perfectBitnum <= NO_PERFECT_BIT && Moved(rehash, first, s, i + 1, Code(), table[..], b', k')
      ensures old(Code()) == first && AlwaysLive(rehash, first, Pointers(c, s)) ==> Code() == first
    {
      hide AllCoded, AllFound, Pointers, Tombs, Live, Encode, Raw, CodingOk, Fits, AlwaysLive;
      hide LooksInvalid, Moved, Put, Highest;
      ghost var was, t := Code(), table[..];
      CodingFacts(rehash, was, t);
      RawFits(was, s[i]);
      SomePointers(c, s, i);
      if was != first {
        StaysValid(rehash, first, s, i, was, t, b, k, p);
      }
      var ok := AddEntry(p, rehash(p));
      b', k' := b, k;
      if LooksInvalid(was, t, p, rehash(p)) {
        b' := i;
        k' :| Highest(k', was.common) && Code() == Unmask(was, {k'});
        MovedInvalid(rehash, first, s, i, t, b, k, table[..], k');
        NotAlwaysLive(rehash, first, c, s, t, i);
      } else {
        MovedNext(rehash, first, s, i, was, t, b, k);
      }
    }

    /** Move all entries to a table of twice the size. */
    method DoubleTable() returns (ok: bool)
      requires AllCoded(rehash, Code(), table[..]) && perfectBitnum <= NO_PERFECT_BIT && bits < 30
      requires elems == |Contents()| && (bits == 0 ==> Contents() == multiset{})
      modifies this`bits, this`perfectBitnum, this`deleted, this`table, this`commonMask, this`commonBits
      ensures fresh(table) && bits == old(bits) + 1 && perfectBitnum <= NO_PERFECT_BIT
      ensures ok ==> AllCoded(rehash, Code(), table[..]) && AllFound(rehash, Code(), table[..])
      ensures ok ==> Contents() == old(Contents()) && deleted == 0 && Tombs(table[..]) == 0
      ensures AlwaysLive(rehash, Grown(old(Code())), old(Contents())) ==> ok && Code() == Grown(old(Code()))
      ensures ok <==> !Garbles(rehash, Grown(old(Code())), old(table[..]))
    {
      hide AllCoded, AllFound, Pointers, Tombs, Live, Encode, Raw, CodingOk, Fits, AlwaysLive, Garbles;
      ghost var c, s := Code(), table[..];
      CodingFacts(rehash, c, table[..]);
      var oldTable, oldNum := table, table.Length;
      Pow2Positive(bits);
      table := new Word[2 * oldNum](_ => EMPTY);
      bits := bits + 1;
      MoreBits(c, Code());
      RegainPerfectBit();
      assert Code() == Grown(c);
      EmptyTable(rehash, Code(), table[..]);
      NothingGarbled(rehash, c, s);
      if bits > 1 {
        ok := MoveEntries(oldTable, c);
        if !ok {
          return;
        }
      }
      deleted := 0;
      return true;
    }

    /** Clear all tombstones, in one walk from an empty bucket on.  No entry can look invalid, because the coding
        is the same and only an entry's perfect bit changes. */
    method RehashTable()
      requires Valid()
      modifies table, this`deleted
      ensures AllCoded(rehash, Code(), table[..]) && AllFound(rehash, Code(), table[..])
      ensures Contents() == old(Contents()) && deleted == 0 && Tombs(table[..]) == 0
    {
      hide AllCoded, AllFound, Pointers, Tombs, Live, Encode, Raw, CodingOk, HalfRehashed, FirstFree;
      ghost var c, s := Code(), table[..];
      CodingFacts(rehash, c, s);
      MaxFacts(bits);
      ghost var d := EmptyBucket(c, s);
      var n := table.Length;
      var perfect := PerfectMask(perfectBitnum);
      var start := 0;
      while table[start] != EMPTY
        invariant 0 <= start <= d
        decreases d - start
      {
        start := start + 1;
      }
      RehashStart(rehash, c, s, start);
      var i := 0;
      while i < n
        invariant 0 <= i <= n && Code() == c && HalfRehashed(rehash, c, s, table[..], start, i)
      {
        var h := if i + start < n then i + start else i + start - n;
        RehashBucket(h, perfect, s, start, i);
        i := i + 1;
      }
      RehashEnd(rehash, c, s, table[..], start);
      deleted := 0;
    }

    method RehashBucket(h: int, perfect: Word, ghost s: seq<Word>, ghost start: int, ghost i: int)
      requires AllCoded(rehash, Code(), s) && AllFound(rehash, Code(), s)
      requires HalfRehashed(rehash, Code(), s, table[..], start, i)
      requires 0 <= h < table.Length && Steps(start, h, table.Length) == i && perfect == Code().perfect
      modifies table
      ensures HalfRehashed(rehash, Code(), s, table[..], start, i + 1)
    {
      hide AllCoded, AllFound, Pointers, Encode, Raw, CodingOk, HalfRehashed, FirstFree;
      ghost var c, t := Code(), table[..];
      CodingFacts(rehash, c, s);
      HalfSize(rehash, c, s, t, start, i);
      var e := table[h];
      if e == EMPTY {
        RehashKeep(rehash, c, s, t, start, i, h);
      } else if e == DELETED {
        RehashTombstone(rehash, c, s, t, start, i, h);
        ghost var t' := t[h := EMPTY];
        table[h] := EMPTY;
        assert table[..] == t';
      } else if e * perfect == {} {
        var p := Raw(Code(), e);
        ghost var t' := t[h := EMPTY];
        table[h] := EMPTY;
        assert table[..] == t' && !Live(table[h]);
        var j := HtAdd(p, rehash(p));
        StaysLive(rehash, c, s, t, start, i, h, j == Home(c, rehash(p)));
        RehashMove(rehash, c, s, t, start, i, h, j);
      } else {
        RehashKeep(rehash, c, s, t, start, i, h);
      }
    }

    /** Before the table gets too full: clear the tombstones if there are many, otherwise double. */
    method MakeRoom() returns (ok: bool)
      requires Valid()
      requires Doubles() ==> bits < 30
      modifies this`bits, this`perfectBitnum, this`deleted, this`table, table, this`commonMask, this`commonBits
      ensures table == old(table) || fresh(table)
      ensures ok ==> Valid() && Contents() == old(Contents()) && elems + 1 + deleted <= HtMax(bits)
      ensures old(elems + 1 + deleted <= HtMax(bits)) ==> table == old(table) && table[..] == old(table[..])
      ensures ok ==> deleted == if old(elems + 1 + deleted <= HtMax(bits)) then old(deleted) else 0
      ensures !old(Doubles()) || AlwaysLive(rehash, old(RoomCode()), old(Contents())) ==>
                ok && Code() == old(RoomCode())
      ensures old(elems) == 0 ==> ok && (old(bits) == 0 <==> old(Doubles()))
      ensures !ok <==> old(Doubles()) && Garbles(rehash, old(RoomCode()), old(table[..]))
    {
      hide AllCoded, AllFound, Pointers, Tombs, AlwaysLive, Garbles;
      NobodyLive(rehash, old(Contents()), elems);
      MaxFacts(bits);
      if elems + 1 + deleted > HtMax(bits) {
        if deleted > HtMaxDeleted(bits) {
          RehashTable();
        } else {
          ok := DoubleTable();
          return;
        }
      }
      return true;
    }

    /** Add pointer p, whose hash is h.  The caller's pointer must not look like an empty or a
        deleted bucket, and the table has at most 2 to the 30 buckets. */
    method HtableAdd(h: Word, p: Word) returns (outcome: AddOutcome)
      requires Valid() && Live(p) && h == rehash(p)
      requires Doubles() ==> bits < 30
      modifies this, table
      ensures outcome == Added ==> Valid() && Contents() == old(Contents()) + multiset{p}
      ensures table == old(table) || fresh(table)
      ensures outcome == AssertFails <==>
                old(elems) == 0 && old(bits) > 0 && old(Fits(Code(), p)) && !Live(Encode(old(Code()), p, h, true))
      ensures outcome == Garbled <==> old(Doubles()) && Garbles(rehash, old(RoomCode()), old(table[..]))
      ensures outcome == Garbled ==> !AlwaysLive(rehash, old(RoomCode()), old(Contents()))
      ensures old(Steady(p)) && outcome == Added ==>
                && Code() == old(Settled(p))
                && deleted == if old(elems + 1 + deleted > HtMax(bits)) then 0 else old(deleted)
    {
      hide AllCoded, AllFound, Pointers, Tombs, Live, Encode;
      hide CodingOk, Fits, AlwaysLive, Unmask, Refit, HtMax, HtMaxDeleted, Garbles;
      var room := MakeRoom();
      if !room {
        return Garbled;
      }
      NobodyLive(rehash, old(Contents()), old(elems));
      if old(elems) == 0 && old(bits) == 0 {
        CodingFacts(rehash, Code(), table[..]);
        GrownIsLive(old(Code()), p, h);
      }
      var added := AddWithRoom(h, p);
      return if added then Added else AssertFails;
    }

    /** The addition once there is room: the mask is made to fit p, and p gets its bucket. */
    method AddWithRoom(h: Word, p: Word) returns (added: bool)
      requires Valid() && Live(p) && h == rehash(p) && elems + 1 + deleted <= HtMax(bits)
      modifies this`elems, this`commonMask, this`commonBits, this`perfectBitnum, table
      ensures added ==> Valid() && Contents() == old(Contents()) + multiset{p}
      ensures !added <==> old(elems) == 0 && old(Fits(Code(), p)) && !Live(Encode(old(Code()), p, h, true))
      ensures var c' := Refit(old(Code()), old(elems) == 0, p);
              added && AlwaysLive(rehash, c', old(Contents())) &&
              (old(elems) == 0 || AlwaysLive(rehash, c', multiset{p}))
              ==> Code() == c'
    {
      hide AllCoded, AllFound, Pointers, Tombs, Live, Encode;
      hide Raw, CodingOk, FirstFree, Fits, LooksInvalid, AlwaysLive, Unmask;
      ghost var c := Code();
      CodingFacts(rehash, c, table[..]);
      if p * commonMask != commonBits {
        UpdateCommon(p);
      }
      FitsIs(c, p);
      FitsIs(Code(), p);
      CodingFacts(rehash, Code(), table[..]);
      MaxFacts(bits);
      if elems == 0 {
        NoneLiveInvalid(Code(), table[..], p, h);
      } else {
        LiveIsValid(rehash, Code(), table[..], p);
      }
      added := AddEntry(p, h);
      if added {
        elems := elems + 1;
      }
    }

    // ---------- Looking up and deleting ----------

    /** Go on from bucket off to the next candidate for hash; perfect is the perfect bit if off is
        where the probe starts.  Candidates passed over have another hash. */
    method HtableVal(off0: int, hash: Word, perfect0: Word, ghost d: int) returns (off: int, r: Candidate)
      requires Valid() && 0 <= off0 < table.Length && 0 <= d < table.Length && table[d] == EMPTY
      requires perfect0 == if off0 == Home(Code(), hash) then Code().perfect else {}
      requires Reaches(table[..], Home(Code(), hash), off0)
      ensures 0 <= off < table.Length && Reaches(table[..], Home(Code(), hash), off)
      ensures Steps(off, d, table.Length) <= Steps(off0, d, table.Length)
      ensures r == Null ==> table[off] == EMPTY
      ensures r != Null ==> Possible(Code(), table[..], hash, off) && r.p == Raw(Code(), table[off])
      ensures forall k | 0 <= k < table.Length && Between(off0, k, off) :: !Possible(Code(), table[..], hash, k)
    {
      hide Encode, Raw, CodingOk, HashPtrBits, Pointers, Tombs, ExtraBits;
      ghost var c, s := Code(), table[..];
      var n := table.Length;
      off := off0;
      var perfect := perfect0;
      var h2 := HashPtrBits(Code(), hash) + perfect;
      ghost var home := Home(c, hash);
      HomeInTable(c, s, hash);
      ClearPerfect(c, hash);
      while table[off] != EMPTY
        invariant 0 <= off < n && Reaches(s, home, off)
        invariant h2 == Spare(c, hash, off == home)
        invariant perfect == perfect0 && (off == off0 || off != home)
        invariant Steps(off, d, n) <= Steps(off0, d, n)
        invariant forall k | 0 <= k < n && Between(off0, k, off) :: !Possible(c, s, hash, k)
        decreases Steps(off, d, n)
      {
        if table[off] != DELETED {
          if ExtraBits(Code(), table[off]) == h2 {
            return off, Pointer(Raw(Code(), table[off]));
          }
        }
        NextReached(s, home, off, d);
        off := Next(off, n);
        h2 := h2 - perfect;
      }
      return off, Null;
    }

    method HtableFirstVal(hash: Word, ghost d: int) returns (off: int, r: Candidate)
      requires Valid() && 0 <= d < table.Length && table[d] == EMPTY
      ensures 0 <= off < table.Length && Reaches(table[..], Home(Code(), hash), off)
      ensures r == Null ==> table[off] == EMPTY
      ensures r != Null ==> Possible(Code(), table[..], hash, off) && r.p == Raw(Code(), table[off])
      ensures forall k | 0 <= k < table.Length && Between(Home(Code(), hash), k, off) ::
                !Possible(Code(), table[..], hash, k)
    {
      HomeInTable(Code(), table[..], hash);
      off := Low(hash, bits);
      off, r := HtableVal(off, hash, PerfectMask(perfectBitnum), d);
    }

    method HtableNextVal(off0: int, hash: Word, ghost d: int) returns (off: int, r: Candidate)
      requires Valid() && 0 <= off0 < table.Length && 0 <= d < table.Length && table[d] == EMPTY
      requires table[off0] != EMPTY && Reaches(table[..], Home(Code(), hash), off0)
      ensures 0 <= off < table.Length && Reaches(table[..], Home(Code(), hash), off)
      ensures Steps(off, d, table.Length) < Steps(off0, d, table.Length)
      ensures r == Null ==> table[off] == EMPTY
      ensures r != Null ==> Possible(Code(), table[..], hash, off) && r.p == Raw(Code(), table[off])
      ensures forall k | 0 <= k < table.Length && Between(Home(Code(), hash), k, off) ::
                Between(Home(Code(), hash), k, off0) || k == off0 || !Possible(Code(), table[..], hash, k)
    {
      HomeInTable(Code(), table[..], hash);
      NextReached(table[..], Home(Code(), hash), off0, d);
      off := Next(off0, table.Length);
      off, r := HtableVal(off, hash, {}, d);
    }

    /** Whether a pointer with this hash satisfies wanted, and which: the first possible one on the way. */
    method HtableGet(hash: Word, wanted: Word -> bool) returns (r: Candidate)
      requires Valid()
      ensures r != Null ==> r.p in Contents() && wanted(r.p)
      ensures r != Null ==> exists off :: FirstWanted(Code(), table[..], hash, wanted, off, r.p)
      ensures r == Null ==> forall q | q in Contents() && rehash(q) == hash :: !wanted(q)
    {
      hide Encode, Raw, CodingOk, HashPtrBits, Pointers, Tombs, ExtraBits, AllCoded, AllFound, Reaches;
      ghost var c, s := Code(), table[..];
      MaxFacts(bits);
      CodingFacts(rehash, c, s);
      ghost var d := EmptyBucket(c, s);
      ghost var home := Home(c, hash);
      var off;
      off, r := HtableFirstVal(hash, d);
      while r != Null
        invariant 0 <= off < table.Length && Reaches(s, home, off)
        invariant r == Null ==> s[off] == EMPTY
        invariant r != Null ==> Possible(c, s, hash, off) && r.p == Raw(c, s[off])
        invariant forall k | 0 <= k < |s| && Between(home, k, off) :: !(Possible(c, s, hash, k) && wanted(Raw(c, s[k])))
        decreases Steps(off, d, |s|)
      {
        if wanted(r.p) {
          PointersIn(c, s, r.p);
          assert FirstWanted(c, s, hash, wanted, off, r.p);
          return;
        }
        off, r := HtableNextVal(off, hash, d);
      }
      forall q | q in Contents() && rehash(q) == hash
        ensures !wanted(q)
      {
        PointersIn(c, s, q);
        var b :| 0 <= b < |s| && Live(s[b]) && Raw(c, s[b]) == q;
        FoundBefore(rehash, c, s, b, off);
        PossibleEntry(rehash, c, s, b);
      }
    }

    /** Delete the entry in bucket off. */
    method HtableDelVal(off: int)
      requires Valid() && 0 <= off < table.Length && Live(table[off])
      modifies table, this`elems, this`deleted
      ensures Valid() && Contents() == old(Contents()) - multiset{old(Raw(Code(), table[off]))}
      ensures old(Raw(Code(), table[off])) in old(Contents())
      ensures Emptied(old(table[..]), old(deleted), off, table[..], deleted) && elems == old(elems) - 1
    {
      hide Encode, Raw, CodingOk, Pointers, Tombs, AllCoded, AllFound, Live;
      ghost var c, s := Code(), table[..];
      Deleted(rehash, c, s, off);
      PointersIn(c, s, Raw(c, s[off]));
      elems := elems - 1;
      ghost var t := s[off := if s[Next(off, |s|)] != EMPTY then DELETED else EMPTY];
      if table[Next(off, table.Length)] != EMPTY {
        table[off] := DELETED;
        deleted := deleted + 1;
      } else {
        table[off] := EMPTY;
      }
      assert table[..] == t;
    }

    /** Delete one occurrence of pointer p, if there is one. */
    method HtableDel(h: Word, p: Word) returns (found: bool)
      requires Valid() && h == rehash(p)
      modifies table, this`elems, this`deleted
      ensures Valid() && (found <==> p in old(Contents()))
      ensures Contents() == old(Contents()) - multiset{p} && deleted <= old(deleted) + 1
      ensures found ==> exists off ::
                && FirstHere(Code(), old(table[..]), h, off, p)
                && Emptied(old(table[..]), old(deleted), off, table[..], deleted)
      ensures !found ==> table[..] == old(table[..]) && deleted == old(deleted)
    {
      hide Encode, Raw, CodingOk, HashPtrBits, Pointers, Tombs, ExtraBits, AllCoded, AllFound, Reaches;
      ghost var c, s := Code(), table[..];
      MaxFacts(bits);
      CodingFacts(rehash, c, s);
      ghost var d := EmptyBucket(c, s);
      ghost var home := Home(c, h);
      var off, r := HtableFirstVal(h, d);
      while r != Null
        invariant Code() == c && table[..] == s && Valid() && elems == old(elems) && deleted == old(deleted)
        invariant 0 <= off < table.Length && Reaches(s, home, off)
        invariant r == Null ==> s[off] == EMPTY
        invariant r != Null ==> Possible(c, s, h, off) && r.p == Raw(c, s[off])
        invariant forall k | 0 <= k < |s| && Between(home, k, off) :: !PossiblyThis(c, s, h, k, p)
        decreases Steps(off, d, |s|)
      {
        if r.p == p {
          assert FirstHere(c, s, h, off, p);
          HtableDelVal(off);
          return true;
        }
        off, r := HtableNextVal(off, h, d);
      }
      PointersIn(c, s, p);
      forall b | 0 <= b < |s| && Live(s[b])
        ensures Raw(c, s[b]) != p
      {
        if Raw(c, s[b]) == p {
          FoundBefore(rehash, c, s, b, off);
          PossibleEntry(rehash, c, s, b);
        }
      }
      return false;
    }
  }

  lemma NoneInEmpty(i: nat)
    ensures FirstBit(EMPTY, i) == {}
    decreases WIDTH - i
  {
    if i + 1 < WIDTH {
      NoneInEmpty(i + 1);
    }
  }

  /** The highest bit of a pointer within the mask is that of the common bits. */
  lemma HighestOf(c: Coding, p: Word, k: int)
    requires Fits(c, p) && 0 < k < WIDTH && k in p * c.mask && forall j | k < j < WIDTH :: j !in p * c.mask
    ensures Highest(k, c.common)
  {
  }

  lemma HighestUnique(k: int, l: int, w: Word)
    requires Highest(k, w) && Highest(l, w)
    ensures k == l
  {
  }

  lemma PutThere(c: Coding, t: seq<Word>, p: Word, h: Word, j: int)
    requires FirstFree(t, Home(c, h), j)
    ensures Put(c, t, p, h) == t[j := Encode(c, p, h, j == Home(c, h))]
  {
    hide FirstFree, Encode;
    forall i | FirstFree(t, Home(c, h), i)
      ensures i == j
    {
      FirstFreeUnique(t, Home(c, h), i, j);
    }
  }

  /** With a bit that is set in all pointers out of the mask, no word looks invalid any more. */
  lemma ExposedAlwaysLive(rehash: Word -> Word, c: Coding, s: seq<Word>, k: int)
    requires CodingOk(c) && Highest(k, c.common)
    ensures AlwaysLive(rehash, Unmask(c, {k}), Pointers(c, s))
  {
    hide Pointers, Encode, Live, Raw, CodingOk, Unmask, Highest;
    forall q, atHome | q in Pointers(c, s)
      ensures Live(Encode(Unmask(c, {k}), q, rehash(q), atHome))
    {
      PointersIn(c, s, q);
      var b :| 0 <= b < |s| && Live(s[b]) && Raw(c, s[b]) == q;
      RawFits(c, s[b]);
      ExposedAlways(c, q, rehash(q), atHome, k);
    }
  }

  lemma ExposedAlways(c: Coding, p: Word, h: Word, atHome: bool, k: int)
    requires Fits(c, p) && Highest(k, c.common)
    ensures Live(Encode(Unmask(c, {k}), p, h, atHome))
  {
    ExposedIsLive(c, {k}, p, h, atHome, k);
  }

  // ---------- Moving entries to a larger table ----------

  /** The first i buckets of s have been moved: to a table as Filled says, or, once an entry has looked invalid,
      to one without bit k in the mask. */
  ghost predicate Moved(rehash: Word -> Word, first: Coding, s: seq<Word>, i: nat, now: Coding, t: seq<Word>,
                        b: nat, k: int)
  {
    && i <= |s|
    && if now == first then NoneInvalid(rehash, first, s, i) && t == Filled(rehash, first, s, i)
       else
         && b < i && now == Unmask(first, {k}) && Highest(k, first.common)
         && FirstInvalid(rehash, first, s, b) && AllHave(s, b, i, k)
  }

  lemma NothingMoved(rehash: Word -> Word, first: Coding, s: seq<Word>, t: seq<Word>)
    requires |t| == 2 * |s| && forall i :: 0 <= i < |t| ==> t[i] == EMPTY
    ensures Moved(rehash, first, s, 0, first, t, 0, 0)
  {
  }

  lemma MovedNothing(rehash: Word -> Word, first: Coding, s: seq<Word>, i: nat, now: Coding, t: seq<Word>,
                     b: nat, k: int)
    requires Moved(rehash, first, s, i, now, t, b, k) && i < |s| && !Live(s[i])
    ensures Moved(rehash, first, s, i + 1, now, t, b, k)
  {
    hide Live, LooksInvalid, Put, Highest, Unmask, Raw;
  }

  /** A word that is decoded to another pointer lacks the bit that has left the mask. */
  lemma MovedWrongly(rehash: Word -> Word, first: Coding, s: seq<Word>, i: nat, now: Coding, t: seq<Word>,
                     b: nat, k: int)
    requires Moved(rehash, first, s, i, now, t, b, k) && i < |s| && Live(s[i]) && Raw(now, s[i]) != Raw(first, s[i])
    ensures Garbles(rehash, first, s)
  {
    hide Live, LooksInvalid, Put, Highest, NoneInvalid;
    DecodedAlike(first, s[i], k);
    assert !AllHave(s, b, |s|, k);
  }

  lemma DecodedAlike(c: Coding, e: Word, k: int)
    ensures Highest(k, c.common) ==> (Raw(Unmask(c, {k}), e) == Raw(c, e) <==> k in e)
  {
    if Highest(k, c.common) {
      var r := Raw(Unmask(c, {k}), e);
      assert k in r <==> k in e;
      assert k in Raw(c, e);
    }
  }

  lemma StaysValid(rehash: Word -> Word, first: Coding, s: seq<Word>, i: nat, now: Coding, t: seq<Word>,
                   b: nat, k: int, p: Word)
    requires Moved(rehash, first, s, i, now, t, b, k) && now != first && Fits(first, p)
    ensures !LooksInvalid(now, t, p, rehash(p))
  {
    hide Encode, Live, FirstFree, Highest, Unmask, FirstInvalid;
    ExposedAlways(first, p, rehash(p), true, k);
    ExposedAlways(first, p, rehash(p), false, k);
  }

  lemma MovedInvalid(rehash: Word -> Word, first: Coding, s: seq<Word>, i: nat, t: seq<Word>, b: nat, k: int,
                     t': seq<Word>, k': int)
    requires Moved(rehash, first, s, i, first, t, b, k) && i < |s| && Live(s[i])
    requires LooksInvalid(first, t, Raw(first, s[i]), rehash(Raw(first, s[i]))) && Highest(k', first.common)
    ensures Moved(rehash, first, s, i + 1, Unmask(first, {k'}), t', i, k')
  {
    hide Live, LooksInvalid, Put, Raw;
    assert k' !in Unmask(first, {k'}).common && k' in first.common;
  }

  lemma MovedNext(rehash: Word -> Word, first: Coding, s: seq<Word>, i: nat, now: Coding, t: seq<Word>, b: nat, k: int)
    requires Moved(rehash, first, s, i, now, t, b, k) && i < |s| && Live(s[i]) && Raw(now, s[i]) == Raw(first, s[i])
    requires !LooksInvalid(now, t, Raw(now, s[i]), rehash(Raw(now, s[i])))
    ensures Moved(rehash, first, s, i + 1, now, Put(now, t, Raw(now, s[i]), rehash(Raw(now, s[i]))), b, k)
  {
    DecodedAlike(first, s[i], k);
    hide Live, LooksInvalid, Put, Raw, Highest, Unmask;
  }

  lemma MovedAll(rehash: Word -> Word, first: Coding, s: seq<Word>, now: Coding, t: seq<Word>, b: nat, k: int)
    requires Moved(rehash, first, s, |s|, now, t, b, k)
    ensures !Garbles(rehash, first, s)
  {
    hide Live, LooksInvalid, Put, Raw, Unmask, Highest, AllHave;
    forall b': nat, k' | FirstInvalid(rehash, first, s, b') && Highest(k', first.common)
      ensures AllHave(s, b', |s|, k')
    {
      if now != first {
        HighestUnique(k, k', first.common);
        assert b == b';
      }
    }
  }

  lemma NothingGarbled(rehash: Word -> Word, c: Coding, s: seq<Word>)
    ensures Pointers(c, s) == multiset{} ==> !Garbles(rehash, Grown(c), s)
  {
    hide Live, LooksInvalid, Put, Raw, Highest, AllHave;
    if Pointers(c, s) == multiset{} {
      NoneLive(c, s);
    }
  }
  lemma NotAlwaysLive(rehash: Word -> Word, first: Coding, c: Coding, s: seq<Word>, t: seq<Word>, i: nat)
    requires i < |s| && Live(s[i])
    requires LooksInvalid(first, t, Raw(c, s[i]), rehash(Raw(c, s[i])))
    ensures !AlwaysLive(rehash, first, Pointers(c, s))
  {
    hide Live, Encode, Raw, FirstFree;
    PointersIn(c, s, Raw(c, s[i]));
  }

  lemma SomePointers(c: Coding, s: seq<Word>, i: nat)
    requires i < |s| && Live(s[i])
    ensures |Pointers(c, s)| > 0
  {
    PointersIn(c, s, Raw(c, s[i]));
  }

  /** An entry that is taken out and added again under the same coding stays valid. */
  lemma StaysLive(rehash: Word -> Word, c: Coding, s: seq<Word>, t: seq<Word>, st: int, i: int, h: int, atHome: bool)
    requires AllCoded(rehash, c, s) && HalfRehashed(rehash, c, s, t, st, i)
    requires 0 <= h < |s| && Steps(st, h, |s|) == i && Live(t[h]) && t[h] * c.perfect == {}
    ensures var p := Raw(c, t[h]); Live(Encode(c, p, rehash(p), atHome))
  {
    hide Pointers, Encode, Raw, Live, Home;
    assert t[h] == s[h] && Coded(rehash, c, s, h);
    var p := Raw(c, s[h]);
    RawFits(c, s[h]);
    EncodeDecode(c, p, rehash(p), h == Home(c, rehash(p)));
    if c.perfect == {} {
      NoPerfectSame(c, p, rehash(p));
    } else if atHome {
      PerfectIsLive(c, p, rehash(p));
    }
  }

  lemma NoPerfectSame(c: Coding, p: Word, h: Word)
    requires c.perfect == {}
    ensures Encode(c, p, h, true) == Encode(c, p, h, false)
  {
  }

  /** With the perfect bit back, or nothing to share above the lowest bit, p has a bit to be seen by at home. */
  lemma GrownIsLive(c: Coding, p: Word, h: Word)
    requires CodingOk(Grown(c)) && Live(p)
    ensures Live(Encode(Grown(c), p, h, true))
  {
    if Grown(c).perfect != {} {
      PerfectIsLive(Grown(c), p, h);
    } else {
      NoFirstBit(c.mask, 0);
      OnlyLowestShared(Grown(c));
      LowestMaskLive(Grown(c), p, h, true);
    }
  }

  lemma OnlyLowestShared(c: Coding)
    requires CodingOk(c) && forall j :: 0 < j < WIDTH ==> j !in c.mask
    ensures forall i | i in c.mask :: i == 0
  {
    assert forall i | i in c.mask :: i in ALL;
  }

  lemma NobodyLive(rehash: Word -> Word, m: multiset<Word>, n: nat)
    requires n == |m|
    ensures n == 0 ==> forall c :: AlwaysLive(rehash, c, m)
  {
  }

  lemma LiveIsValid(rehash: Word -> Word, c: Coding, s: seq<Word>, p: Word)
    ensures AlwaysLive(rehash, c, multiset{p}) ==> !LooksInvalid(c, s, p, rehash(p))
  {
    hide Live, Encode, FirstFree;
  }

  lemma SameSize(c: Coding, diff: Word, s: seq<Word>, t: seq<Word>, i: int)
    requires PartlyPutBack(c, diff, s, t, i)
    ensures |s| == |t|
  {
  }

  lemma PutBackIs(c: Coding, diff: Word, e: Word)
    ensures PutBack(c, diff, e) == (e - diff) + (c.common * diff)
  {
  }

  lemma CodingFacts(rehash: Word -> Word, c: Coding, s: seq<Word>)
    requires AllCoded(rehash, c, s)
    ensures CodingOk(c) && |s| == Pow2(c.bits)
  {
  }

  lemma NothingCoded(rehash: Word -> Word, c: Coding, c': Coding, s: seq<Word>)
    requires AllCoded(rehash, c, s) && forall b | 0 <= b < |s| :: !Live(s[b])
    requires CodingOk(c') && c'.bits == c.bits
    ensures AllCoded(rehash, c', s) && AllFound(rehash, c', s) && Pointers(c', s) == Pointers(c, s)
  {
    SamePointers(c, s, c', s);
  }

  lemma DeadCoded(rehash: Word -> Word, c: Coding, s: seq<Word>, i: int, w: Word)
    requires AllCoded(rehash, c, s) && 0 <= i < |s| && !Live(w)
    ensures AllCoded(rehash, c, s[i := w])
  {
    var t := s[i := w];
    forall b | 0 <= b < |t|
      ensures Coded(rehash, c, t, b)
    {
      assert Coded(rehash, c, s, b);
    }
  }

  lemma UnmaskBitsKept(c: Coding, diff: Word)
    ensures Unmask(c, diff).bits == c.bits && Unmask(c, diff).mask == c.mask - diff
  {
  }

  lemma StillDead(c: Coding, s: seq<Word>, c': Coding, s': seq<Word>, i: int)
    requires Remasked(c, s, c', s') && 0 <= i < |s| && !Live(s[i])
    ensures |s'| == |s| && !Live(s'[i])
  {
  }

  lemma PerfectMaskInside(mask: Word, i: nat)
    requires mask * PerfectMask(i) != EMPTY
    ensures PerfectMask(i) <= mask && |PerfectMask(i)| <= 1 && 0 !in PerfectMask(i) && i < NO_PERFECT_BIT
  {
  }

  lemma PerfectMaskOutside(mask: Word, i: nat)
    requires mask * PerfectMask(i) == EMPTY
    ensures i + 1 in mask ==> i + 1 >= WIDTH
  {
    assert i + 1 in PerfectMask(i) <==> i + 1 < WIDTH;
    assert i + 1 !in mask * PerfectMask(i);
  }

  lemma MoreBits(c: Coding, c': Coding)
    requires CodingOk(c) && c.bits < 30 && c' == c.(bits := c.bits + 1)
    ensures CodingOk(c')
  {
  }

  lemma EmptyTable(rehash: Word -> Word, c: Coding, s: seq<Word>)
    requires CodingOk(c) && |s| == Pow2(c.bits) && forall k | 0 <= k < |s| :: s[k] == EMPTY
    ensures AllCoded(rehash, c, s) && AllFound(rehash, c, s)
    ensures Pointers(c, s) == multiset{} && Tombs(s) == 0
  {
    AllEmpty(c, s);
  }

  lemma NoPointers(c: Coding)
    ensures Pointers(c, []) == multiset{}
  {
  }

  lemma PointersPrefix(c: Coding, s: seq<Word>, i: int)
    requires 0 <= i < |s|
    ensures Pointers(c, s[..i + 1]) == Pointers(c, s[..i]) + Single(c, s[i])
    ensures |Pointers(c, s[..i])| <= i
  {
    assert s[..i + 1][..i] == s[..i];
    FewPointers(c, s[..i]);
  }

  lemma {:induction false} FewPointers(c: Coding, s: seq<Word>)
    ensures |Pointers(c, s)| <= |s|
  {
    if s != [] {
      FewPointers(c, s[..|s| - 1]);
    }
  }

  /** An entry of the old table decodes under the new coding, which has the same mask. */
  lemma OldEntry(rehash: Word -> Word, c: Coding, s: seq<Word>, i: int, c': Coding)
    requires AllCoded(rehash, c, s) && 0 <= i < |s| && Live(s[i])
    requires c'.mask == c.mask && c'.common == c.common
    ensures var p := Raw(c', s[i]); p == Raw(c, s[i]) && Live(p) && Fits(c', p)
  {
    assert Coded(rehash, c, s, i);
    RawFits(c, s[i]);
  }

  lemma FitsIs(c: Coding, p: Word)
    ensures Fits(c, p) <==> p * c.mask == c.common
  {
  }

  lemma HalfSize(rehash: Word -> Word, c: Coding, s: seq<Word>, t: seq<Word>, st: int, i: int)
    requires HalfRehashed(rehash, c, s, t, st, i)
    ensures |t| == |s|
  {
  }

  /** The spare bits of an entry say its hash and whether it is at home. */
  lemma ExtraOfEntry(rehash: Word -> Word, c: Coding, s: seq<Word>, b: int)
    requires AllCoded(rehash, c, s) && 0 <= b < |s| && Live(s[b])
    ensures var h := rehash(Raw(c, s[b])); ExtraBits(c, s[b]) == Spare(c, h, b == Home(c, h))
  {
    hide Encode, Raw, Spare, ExtraBits, Live;
    assert Coded(rehash, c, s, b);
    RawFits(c, s[b]);
    var p := Raw(c, s[b]);
    EncodeDecode(c, p, rehash(p), b == Home(c, rehash(p)));
  }

  lemma PossibleEntry(rehash: Word -> Word, c: Coding, s: seq<Word>, b: int)
    requires AllCoded(rehash, c, s) && 0 <= b < |s| && Live(s[b])
    ensures Possible(c, s, rehash(Raw(c, s[b])), b)
  {
    hide Raw, Spare, ExtraBits, Live;
    ExtraOfEntry(rehash, c, s, b);
  }

  /** A probe that can go on does not come round to its start. */
  lemma NextReached(s: seq<Word>, h: int, off: int, d: int)
    requires 0 <= h < |s| && 0 <= off < |s| && 0 <= d < |s| && s[d] == EMPTY
    requires Reaches(s, h, off) && s[off] != EMPTY
    ensures 0 <= Next(off, |s|) < |s| && Next(off, |s|) != h && Reaches(s, h, Next(off, |s|))
    ensures Steps(Next(off, |s|), d, |s|) < Steps(off, d, |s|)
    ensures forall k :: 0 <= k < |s| && Between(h, k, Next(off, |s|)) ==> Between(h, k, off) || k == off
  {
    assert !Between(h, d, off) && d != off;
  }

  lemma PutBackNone(c: Coding, diff: Word, s: seq<Word>)
    ensures PartlyPutBack(c, diff, s, s, 0)
  {
  }
}
