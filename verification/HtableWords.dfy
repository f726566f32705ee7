/** How the hash table keeps a pointer and spare hash bits in one machine word.

A word is the set of the bits that are one in it: & is intersection, | is union, and x & ~y is
the difference of x and y. */
module HtableWords {
  import opened Basics

  type Word = set<int>

  const WIDTH := 64
  const ALL: Word := set i | 0 <= i < WIDTH
  const EMPTY: Word := {}
  const DELETED: Word := {0}
  const NO_PERFECT_BIT := 63

  /** e > HTABLE_DELETED: some bit above the lowest is set. */
  predicate Live(e: Word) {
    e != EMPTY && e != DELETED
  }

  /** 2 << perfectBitnum, in 64 bits. */
  function PerfectMask(perfectBitnum: nat): Word {
    if perfectBitnum + 1 < WIDTH then {perfectBitnum + 1} else {}
  }

  function Xor(x: Word, y: Word): Word {
    (x - y) + (y - x)
  }

  function ShiftRight(x: Word, n: nat): Word {
    set i | i in x && i >= n :: i - n
  }

  /** x & ((1 << n) - 1), as a number. */
  function Low(x: Word, n: nat): (r: nat)
    ensures r < Pow2(n)
  {
    if n == 0 then 0 else Low(x, n - 1) + if n - 1 in x then Pow2(n - 1) else 0
  }

  /** What a word of the table means: the bits in mask are the same in all pointers, namely those
      of common, so a word has room for other data there. */
  datatype Coding = Coding(bits: nat, perfect: Word, mask: Word, common: Word)

  ghost predicate CodingOk(c: Coding) {
    && c.bits <= 30
    && c.common <= c.mask <= ALL
    && c.perfect <= c.mask && |c.perfect| <= 1 && 0 !in c.perfect
  }

  function ExtraBits(c: Coding, e: Word): Word {
    e * c.mask
  }

  function Raw(c: Coding, e: Word): Word {
    (e - c.mask) + c.common
  }

  function Hval(c: Coding, p: Word, bits: Word): Word {
    (p - c.mask) + bits
  }

  function HashPtrBits(c: Coding, hash: Word): Word {
    Xor(hash, ShiftRight(hash, c.bits)) * c.mask - c.perfect
  }

  /** The spare bits of an entry: bits of the hash, and whether it is in its first bucket. */
  function Spare(c: Coding, hash: Word, atHome: bool): Word {
    HashPtrBits(c, hash) + if atHome then c.perfect else {}
  }

  /** Whether the common bits are those of pointer p. */
  predicate Fits(c: Coding, p: Word) {
    p * c.mask == c.common
  }

  /** The word that stands for pointer p. */
  function Encode(c: Coding, p: Word, hash: Word, atHome: bool): Word {
    Hval(c, p, Spare(c, hash, atHome))
  }

  /** The word of a pointer, bit by bit: outside the mask the pointer's own; inside, whether it is at home, in the
      perfect bit, and elsewhere the hash folded over itself. */
  lemma WordBits(c: Coding, p: Word, hash: Word, atHome: bool, i: nat)
    requires CodingOk(c)
    ensures i in Encode(c, p, hash, atHome) <==>
            if i !in c.mask then i in p
            else if i in c.perfect then atHome
            else (i in hash) != (i + c.bits in hash)
  {
    hide Xor, ShiftRight;
    Folded(hash, c.bits, i);
  }

  lemma Folded(hash: Word, n: nat, i: nat)
    ensures i in Xor(hash, ShiftRight(hash, n)) <==> (i in hash) != (i + n in hash)
  {
    assert i in ShiftRight(hash, n) <==> i + n in hash;
  }

  lemma NotEmpty(s: Word)
    ensures s != {} ==> exists i :: i in s
  {
    if forall i :: i !in s {
      assert s == {};
    }
  }

  lemma Element(s: Word) returns (i: int)
    requires s != {}
    ensures i in s
  {
    NotEmpty(s);
    i :| i in s;
  }

  lemma PerfectMaskFacts(n: nat)
    ensures |PerfectMask(n)| <= 1 && 0 !in PerfectMask(n)
    ensures PerfectMask(n) == {} <==> n >= NO_PERFECT_BIT
  {
  }

  lemma RawFits(c: Coding, e: Word)
    requires CodingOk(c)
    ensures Fits(c, Raw(c, e))
  {
  }

  lemma SpareInMask(c: Coding, hash: Word, atHome: bool)
    requires CodingOk(c)
    ensures Spare(c, hash, atHome) <= c.mask
    ensures Spare(c, hash, atHome) * c.perfect == if atHome then c.perfect else {}
    ensures c.perfect <= c.mask
  {
    hide Xor, ShiftRight;
  }

  lemma Decoded(c: Coding, p: Word, y: Word)
    requires Fits(c, p) && y <= c.mask && c.perfect <= c.mask
    ensures Raw(c, Hval(c, p, y)) == p
    ensures ExtraBits(c, Hval(c, p, y)) == y
    ensures Hval(c, p, y) * c.perfect == y * c.perfect
  {
    assert Hval(c, p, y) - c.mask == p - c.mask;
    assert (p - c.mask) + p * c.mask == p;
  }

  /** Encoding a pointer loses nothing: the pointer, the hash bits and the perfect bit come back. */
  lemma EncodeDecode(c: Coding, p: Word, hash: Word, atHome: bool)
    requires CodingOk(c) && Fits(c, p)
    ensures Raw(c, Encode(c, p, hash, atHome)) == p
    ensures ExtraBits(c, Encode(c, p, hash, atHome)) == Spare(c, hash, atHome)
    ensures Encode(c, p, hash, atHome) * c.perfect == if atHome then c.perfect else {}
  {
    hide HashPtrBits, CodingOk;
    SpareInMask(c, hash, atHome);
    Decoded(c, p, Spare(c, hash, atHome));
  }

  /** With a perfect bit, an entry at home never looks empty or deleted. */
  lemma PerfectIsLive(c: Coding, p: Word, hash: Word)
    requires CodingOk(c) && c.perfect != {}
    ensures Live(Encode(c, p, hash, true))
  {
    hide HashPtrBits;
    var i := Element(c.perfect);
    assert i in Encode(c, p, hash, true) && i !in DELETED;
  }

  /** Moving along the probe sequence clears the perfect bit. */
  lemma ClearPerfect(c: Coding, hash: Word)
    ensures HashPtrBits(c, hash) + c.perfect == Spare(c, hash, true)
    ensures HashPtrBits(c, hash) + {} == Spare(c, hash, false)
    ensures Spare(c, hash, true) - c.perfect == Spare(c, hash, false)
    ensures Spare(c, hash, false) - c.perfect == Spare(c, hash, false)
    ensures Spare(c, hash, false) - {} == Spare(c, hash, false)
  {
    hide Xor, ShiftRight;
  }

  // ---------- Taking bits out of the mask ----------

  /** The coding after the bits of diff have left the mask. */
  function Unmask(c: Coding, diff: Word): Coding {
    Coding(c.bits, if c.perfect * diff != {} then {} else c.perfect, c.mask - diff, c.common - diff)
  }

  /** A word with the common bits put back where diff says. */
  function PutBack(c: Coding, diff: Word, e: Word): Word {
    (e - diff) + (c.common * diff)
  }

  lemma AtMostOne(s: Word, diff: Word)
    requires |s| <= 1
    ensures s * diff == {} || s <= diff
  {
    if s * diff != {} {
      var i := Element(s * diff);
      forall j | j in s
        ensures j == i
      {
        if j != i {
          assert |{i, j}| == 2 && {i, j} <= s;
          SubsetSize({i, j}, s);
        }
      }
    }
  }

  lemma {:induction false} SubsetSize(s: Word, t: Word)
    requires s <= t
    ensures |s| <= |t|
  {
    if s != {} {
      var i := Element(s);
      SubsetSize(s - {i}, t - {i});
    }
  }

  lemma UnmaskOk(c: Coding, diff: Word)
    requires CodingOk(c)
    ensures CodingOk(Unmask(c, diff))
  {
    if c.perfect * diff == {} {
      forall i | i in c.perfect
        ensures i in c.mask - diff
      {
        assert i !in c.perfect * diff;
      }
    }
  }

  /** The spare bits that remain are those of the smaller mask. */
  lemma SpareUnmasked(c: Coding, diff: Word, hash: Word, atHome: bool)
    requires CodingOk(c)
    ensures Spare(c, hash, atHome) - diff == Spare(Unmask(c, diff), hash, atHome)
  {
    hide Xor, ShiftRight;
    AtMostOne(c.perfect, diff);
  }

  /** Putting the common bits back keeps the pointer and encodes it for the smaller mask. */
  lemma PutBackEncoded(c: Coding, diff: Word, p: Word, hash: Word, atHome: bool)
    requires CodingOk(c) && Fits(c, p) && diff <= c.mask
    ensures Raw(c, PutBack(c, diff, Encode(c, p, hash, atHome))) == p
    ensures PutBack(c, diff, Encode(c, p, hash, atHome)) == Encode(Unmask(c, diff), p, hash, atHome)
    ensures Fits(Unmask(c, diff), p)
  {
    hide Spare;
    SpareUnmasked(c, diff, hash, atHome);
    EncodeDecode(c, p, hash, atHome);
    PutBackRaw(c, diff, Encode(c, p, hash, atHome));
  }

  /** Putting bits back leaves the pointer as it is. */
  lemma PutBackRaw(c: Coding, diff: Word, e: Word)
    requires diff <= c.mask
    ensures Raw(c, PutBack(c, diff, e)) == Raw(c, e)
  {
    assert PutBack(c, diff, e) - c.mask == e - c.mask;
  }

  /** Putting bits back in two steps is the same as in one. */
  lemma PutBackTwice(c: Coding, diff: Word, more: Word, e: Word)
    ensures PutBack(c, diff + more, PutBack(c, diff, e)) == PutBack(c, diff + more, e)
  {
  }

  /** Where pointer p differs from the common bits; without those bits in the mask, p fits. */
  function Difference(c: Coding, p: Word): Word {
    Xor(c.common, p * c.mask)
  }

  lemma DifferenceFits(c: Coding, p: Word, diff: Word)
    requires CodingOk(c)
    ensures Difference(c, p) <= c.mask
    ensures Difference(c, p) <= diff ==> Fits(Unmask(c, diff), p)
  {
  }

  /** A word that looks invalid hides a set bit of its pointer in the mask. */
  lemma HiddenBit(c: Coding, diff: Word, e: Word)
    requires CodingOk(c) && diff <= c.mask
    requires Live(Raw(c, e)) && !Live(PutBack(c, diff, e))
    ensures exists i :: 0 < i < WIDTH && i in Raw(c, e) * (c.mask - diff)
  {
    var p := Raw(c, e);
    var i := AboveLowest(p);
    Dead(PutBack(c, diff, e), i);
    assert i in p * (c.mask - diff);
  }

  lemma AboveLowest(p: Word) returns (i: int)
    requires Live(p)
    ensures i in p && i != 0
  {
    OnlyLowest(p);
    i := Element(p - {0});
  }

  lemma OnlyLowest(p: Word)
    ensures p - {0} == {} ==> !Live(p)
  {
    if p - {0} == {} {
      assert p == if 0 in p then {0} else {};
    }
  }

  lemma Dead(e: Word, i: int)
    requires !Live(e) && i != 0
    ensures i !in e
  {
  }

  /** The same for a pointer about to be added. */
  lemma HiddenInNew(c: Coding, p: Word, hash: Word, atHome: bool)
    requires CodingOk(c) && Live(p) && !Live(Encode(c, p, hash, atHome))
    ensures exists i :: 0 < i < WIDTH && i in p * c.mask
  {
    hide Spare;
    var i := AboveLowest(p);
    Dead(Encode(c, p, hash, atHome), i);
    assert i in p * c.mask;
  }

  /** Once a set bit of a pointer, above the lowest, is out of the mask, its word is live. */
  lemma ExposedIsLive(c: Coding, diff: Word, p: Word, hash: Word, atHome: bool, i: int)
    requires i != 0 && i in p && i in diff
    ensures Live(Encode(Unmask(c, diff), p, hash, atHome))
  {
    hide Spare;
    assert i in Encode(Unmask(c, diff), p, hash, atHome);
  }
}
