/** Bitmaps packed in words.

A word is the set of the places of its bits that are one, counted from the most significant: shifting right by k moves
every bit k places on, and the first bit set is the number of leading zeros. */
module Bitmap {
  const WORD_BITS: nat := 64

  type Word = set<nat>

  function AllOnes(): (w: Word)
    ensures forall i :: i in w <==> 0 <= i < WORD_BITS
  {
    Upto(WORD_BITS)
  }

  function Upto(n: nat): (w: Word)
    ensures forall i :: i in w <==> 0 <= i < n
    decreases n
  {
    if n == 0 then {} else Upto(n - 1) + {n - 1}
  }

  function ShiftRight(w: Word, k: nat): (r: Word)
    ensures forall i :: i in r <==> k <= i < WORD_BITS && i - k in w
  {
    set i | i in AllOnes() && k <= i && i - k in w
  }

  function Complement(w: Word): Word {
    AllOnes() - w
  }

  /** The bits from n on, as far as its word goes. */
  function HeadMask(n: nat): (r: Word)
    ensures forall i :: i in r <==> n % WORD_BITS <= i < WORD_BITS
  {
    ShiftRight(AllOnes(), n % WORD_BITS)
  }

  /** The bits of the word of m that are before it. */
  function TailMask(m: nat): (r: Word)
    ensures forall i :: i in r <==> 0 <= i < m % WORD_BITS
  {
    Complement(ShiftRight(AllOnes(), m % WORD_BITS))
  }

  function AlignDown(n: nat): (r: nat)
    ensures r <= n < r + WORD_BITS && r % WORD_BITS == 0 && r == n / WORD_BITS * WORD_BITS
  {
    n - n % WORD_BITS
  }

  function AlignUp(n: nat): (r: nat)
    ensures n <= r < n + WORD_BITS && r % WORD_BITS == 0
  {
    AlignDown(n + WORD_BITS - 1)
  }

  function NWords(nbits: nat): (r: nat)
    ensures nbits <= r * WORD_BITS
  {
    (nbits + WORD_BITS - 1) / WORD_BITS
  }

  /** Bit n of a bitmap. */
  predicate Bit(b: seq<Word>, n: nat) {
    n / WORD_BITS < |b| && n % WORD_BITS in b[n / WORD_BITS]
  }

  // ---------- Single bits ----------

  method BitmapClearBit(b: array<Word>, n: nat)
    requires n < b.Length * WORD_BITS
    modifies b
    ensures forall i: nat :: Bit(b[..], i) <==> Bit(old(b[..]), i) && i != n
  {
    b[n / WORD_BITS] := b[n / WORD_BITS] - {n % WORD_BITS};
    Places(n);
  }

  method BitmapSetBit(b: array<Word>, n: nat)
    requires n < b.Length * WORD_BITS
    modifies b
    ensures forall i: nat :: Bit(b[..], i) <==> Bit(old(b[..]), i) || i == n
  {
    b[n / WORD_BITS] := b[n / WORD_BITS] + {n % WORD_BITS};
    Places(n);
  }

  method BitmapTestBit(b: array<Word>, n: nat) returns (r: bool)
    requires n < b.Length * WORD_BITS
    ensures r <==> Bit(b[..], n)
  {
    return n % WORD_BITS in b[n / WORD_BITS];
  }

  /** A bit is told by its word and its place in it. */
  lemma Places(n: nat)
    ensures forall i: nat :: i / WORD_BITS == n / WORD_BITS && i % WORD_BITS == n % WORD_BITS ==> i == n
  {
  }

  // ---------- Ranges ----------

  /** Set or clear the bits of a mask in one word. */
  function Masked(w: Word, mask: Word, fill: bool): Word {
    if fill then w + mask else w - mask
  }

  /** The bits from n up to m are as told, and the others as they were. */
  ghost predicate Ranged(was: seq<Word>, now: seq<Word>, n: nat, m: nat, fill: bool) {
    && |now| == |was|
    && forall i: nat :: i < |was| * WORD_BITS ==> (Bit(now, i) <==> if n <= i < m then fill else Bit(was, i))
  }

  lemma WordRanged(was: seq<Word>, now: seq<Word>, n: nat, m: nat, mask: Word, fill: bool, k: nat)
    requires k < |was| && k * WORD_BITS <= n <= m <= (k + 1) * WORD_BITS
    requires now == was[k := Masked(was[k], mask, fill)]
    requires forall i: nat :: i in mask <==> n - k * WORD_BITS <= i < m - k * WORD_BITS
    ensures Ranged(was, now, n, m, fill)
  {
    forall i: nat | i < |was| * WORD_BITS
      ensures Bit(now, i) <==> if n <= i < m then fill else Bit(was, i)
    {
      assert i == i / WORD_BITS * WORD_BITS + i % WORD_BITS;
      if i / WORD_BITS == k {
        assert i % WORD_BITS in mask <==> n <= i < m;
      }
    }
  }

  lemma RangedTwice(a: seq<Word>, b: seq<Word>, c: seq<Word>, n: nat, k: nat, m: nat, fill: bool)
    requires Ranged(a, b, n, k, fill) && Ranged(b, c, k, m, fill) && n <= k <= m
    ensures Ranged(a, c, n, m, fill)
  {
    hide Bit;
  }

  /** Fill, or clear, the bits from n up to m: parts of words by masks, and whole words at once. */
  method BitmapRange(b: array<Word>, n: nat, m: nat, fill: bool)
    requires n <= m <= b.Length * WORD_BITS
    modifies b
    ensures Ranged(old(b[..]), b[..], n, m, fill)
  {
    hide Ranged, Bit, Masked;
    var an, am := AlignUp(n), AlignDown(m);
    var headmask, tailmask := HeadMask(n), TailMask(m);
    ghost var s := b[..];
    if am < an {
      OneWord(n, m);
      ChangeWord(b, n / WORD_BITS, headmask * tailmask, fill, n, m);
      return;
    }
    if an > n {
      HeadWord(n);
      ChangeWord(b, n / WORD_BITS, headmask, fill, n, an);
    } else {
      NoneRanged(s, n, fill);
    }
    ghost var t := b[..];
    WholeWords(b, an, am, fill);
    ghost var u := b[..];
    RangedTwice(s, t, u, n, an, am, fill);
    if m > am {
      TailWord(m);
      ChangeWord(b, m / WORD_BITS, tailmask, fill, am, m);
    } else {
      NoneRanged(u, am, fill);
    }
    RangedTwice(s, u, b[..], n, am, m, fill);
  }

  method ChangeWord(b: array<Word>, k: nat, mask: Word, fill: bool, ghost n: nat, ghost m: nat)
    requires k < b.Length && k * WORD_BITS <= n <= m <= (k + 1) * WORD_BITS
    requires forall i: nat :: i in mask <==> n - k * WORD_BITS <= i < m - k * WORD_BITS
    modifies b
    ensures Ranged(old(b[..]), b[..], n, m, fill)
  {
    ghost var s := b[..];
    b[k] := Masked(b[k], mask, fill);
    assert b[..] == s[k := Masked(s[k], mask, fill)];
    WordRanged(s, b[..], n, m, mask, fill, k);
  }

  /** What memset does. */
  method WholeWords(b: array<Word>, an: nat, am: nat, fill: bool)
    requires an <= am <= b.Length * WORD_BITS && an % WORD_BITS == 0 && am % WORD_BITS == 0
    modifies b
    ensures Ranged(old(b[..]), b[..], an, am, fill)
  {
    hide Ranged, Bit;
    ghost var s := b[..];
    NoneRanged(s, an, fill);
    var k := an / WORD_BITS;
    while k < am / WORD_BITS
      invariant an / WORD_BITS <= k <= am / WORD_BITS
      invariant Ranged(s, b[..], an, k * WORD_BITS, fill)
    {
      ghost var t := b[..];
      b[k] := if fill then AllOnes() else {};
      WordSet(t, b[..], k, fill);
      RangedTwice(s, t, b[..], an, k * WORD_BITS, (k + 1) * WORD_BITS, fill);
      k := k + 1;
    }
  }

  lemma WordSet(was: seq<Word>, now: seq<Word>, k: nat, fill: bool)
    requires k < |was| && now == was[k := if fill then AllOnes() else {}]
    ensures Ranged(was, now, k * WORD_BITS, (k + 1) * WORD_BITS, fill)
  {
    forall i: nat | i < |was| * WORD_BITS
      ensures Bit(now, i) <==> if k * WORD_BITS <= i < (k + 1) * WORD_BITS then fill else Bit(was, i)
    {
      assert i == i / WORD_BITS * WORD_BITS + i % WORD_BITS;
    }
  }

  lemma NoneRanged(s: seq<Word>, n: nat, fill: bool)
    ensures Ranged(s, s, n, n, fill)
  {
  }

  /** Both ends in one word. */
  lemma OneWord(n: nat, m: nat)
    requires n <= m && AlignDown(m) < AlignUp(n)
    ensures n / WORD_BITS * WORD_BITS <= n <= m < (n / WORD_BITS + 1) * WORD_BITS
    ensures AlignDown(m) == n / WORD_BITS * WORD_BITS
    ensures forall i: nat :: i in HeadMask(n) * TailMask(m) <==>
                             n - n / WORD_BITS * WORD_BITS <= i < m - n / WORD_BITS * WORD_BITS
  {
    assert n == n / WORD_BITS * WORD_BITS + n % WORD_BITS;
    assert m == m / WORD_BITS * WORD_BITS + m % WORD_BITS;
    assert n / WORD_BITS == m / WORD_BITS;
  }

  lemma HeadWord(n: nat)
    requires AlignUp(n) > n
    ensures AlignUp(n) == (n / WORD_BITS + 1) * WORD_BITS && n / WORD_BITS * WORD_BITS <= n
    ensures forall i: nat :: i in HeadMask(n) <==>
                             n - n / WORD_BITS * WORD_BITS <= i < AlignUp(n) - n / WORD_BITS * WORD_BITS
  {
    assert n == n / WORD_BITS * WORD_BITS + n % WORD_BITS;
  }

  lemma TailWord(m: nat)
    ensures AlignDown(m) == m / WORD_BITS * WORD_BITS && m < (m / WORD_BITS + 1) * WORD_BITS
    ensures forall i: nat :: i in TailMask(m) <==> i < m - m / WORD_BITS * WORD_BITS
  {
    assert m == m / WORD_BITS * WORD_BITS + m % WORD_BITS;
  }

  method BitmapFillRange(b: array<Word>, n: nat, m: nat)
    requires n <= m <= b.Length * WORD_BITS
    modifies b
    ensures Ranged(old(b[..]), b[..], n, m, true)
  {
    BitmapRange(b, n, m, true);
  }

  method BitmapZeroRange(b: array<Word>, n: nat, m: nat)
    requires n <= m <= b.Length * WORD_BITS
    modifies b
    ensures Ranged(old(b[..]), b[..], n, m, false)
  {
    BitmapRange(b, n, m, false);
  }

  // ---------- The first bit set ----------

  /** The number of leading zeros: the first bit that is set. */
  method BitmapClz(w: Word) returns (lz: nat)
    requires exists i :: i in w && i < WORD_BITS
    ensures lz in w && lz < WORD_BITS && forall i :: i in w ==> lz <= i
  {
    ghost var first :| first in w && first < WORD_BITS;
    lz := 0;
    while lz !in w
      invariant lz <= first && forall i :: i in w ==> lz <= i
      decreases first - lz
    {
      lz := lz + 1;
    }
  }

  /** r is the first bit set from n on before m, or m. */
  ghost predicate FirstSet(b: seq<Word>, n: nat, m: nat, r: nat) {
    && n <= r <= m
    && (forall i: nat :: n <= i < r ==> !Bit(b, i))
    && (r < m ==> Bit(b, r))
  }

  /** The bits of one word under a mask: the first of them, if there is one. */
  method FirstInWord(b: array<Word>, k: nat, mask: Word, ghost n: nat, ghost m: nat) returns (found: bool, r: nat)
    requires k < b.Length && k * WORD_BITS <= n <= m <= (k + 1) * WORD_BITS
    requires forall i: nat :: i in mask <==> n - k * WORD_BITS <= i < m - k * WORD_BITS
    ensures found ==> n <= r < m && FirstSet(b[..], n, m, r)
    ensures !found ==> FirstSet(b[..], n, m, m)
  {
    var w := b[k] * mask;
    if w == {} {
      NoneInWord(b[..], k, mask, n, m);
      return false, 0;
    }
    SomeBit(w);
    assert forall i :: i in w ==> i in mask && i < WORD_BITS;
    var lz := BitmapClz(w);
    FirstOfWord(b[..], k, mask, n, m, lz);
    return true, k * WORD_BITS + lz;
  }

  lemma SomeBit(w: Word)
    ensures w != {} ==> exists i :: i in w
  {
    if forall i :: i !in w {
      assert w == {};
    }
  }

  lemma NoneInWord(b: seq<Word>, k: nat, mask: Word, n: nat, m: nat)
    requires k < |b| && k * WORD_BITS <= n <= m <= (k + 1) * WORD_BITS && b[k] * mask == {}
    requires forall i: nat :: i in mask <==> n - k * WORD_BITS <= i < m - k * WORD_BITS
    ensures FirstSet(b, n, m, m)
  {
    forall i: nat | n <= i < m
      ensures !Bit(b, i)
    {
      InWord(k, i);
      assert i % WORD_BITS in mask && i % WORD_BITS !in b[k] * mask;
    }
  }

  lemma InWord(k: nat, i: nat)
    requires k * WORD_BITS <= i < (k + 1) * WORD_BITS
    ensures i / WORD_BITS == k && i % WORD_BITS == i - k * WORD_BITS
  {
  }

  lemma FirstOfWord(b: seq<Word>, k: nat, mask: Word, n: nat, m: nat, lz: nat)
    requires k < |b| && k * WORD_BITS <= n <= m <= (k + 1) * WORD_BITS
    requires forall i: nat :: i in mask <==> n - k * WORD_BITS <= i < m - k * WORD_BITS
    requires lz in b[k] * mask && forall i :: i in b[k] * mask ==> lz <= i
    ensures n <= k * WORD_BITS + lz < m && FirstSet(b, n, m, k * WORD_BITS + lz)
  {
    var r := k * WORD_BITS + lz;
    InWord(k, r);
    forall i: nat | n <= i < r
      ensures !Bit(b, i)
    {
      InWord(k, i);
      assert i % WORD_BITS in mask;
      assert i % WORD_BITS !in b[k] * mask;
    }
  }

  lemma FirstLater(b: seq<Word>, n: nat, k: nat, m: nat, r: nat)
    requires n <= k <= m && FirstSet(b, n, k, k) && FirstSet(b, k, m, r)
    ensures FirstSet(b, n, m, r)
  {
    hide Bit;
  }

  lemma FirstSooner(b: seq<Word>, n: nat, k: nat, m: nat, r: nat)
    requires r < k <= m && FirstSet(b, n, k, r)
    ensures FirstSet(b, n, m, r)
  {
  }

  /** The first bit set in a range, or its end. */
  method BitmapFfs(b: array<Word>, n: nat, m: nat) returns (r: nat)
    requires n <= m <= b.Length * WORD_BITS
    ensures FirstSet(b[..], n, m, r)
  {
    hide FirstSet, Bit;
    var an, am := AlignUp(n), AlignDown(m);
    var found;
    if am < an {
      OneWord(n, m);
      found, r := FirstInWord(b, n / WORD_BITS, HeadMask(n) * TailMask(m), n, m);
      return if found then r else m;
    }
    NoFirst(b[..], n);
    if an > n {
      HeadWord(n);
      found, r := FirstInWord(b, n / WORD_BITS, HeadMask(n), n, an);
      if found {
        FirstSooner(b[..], n, an, m, r);
        return;
      }
    }
    while an < am
      invariant n <= an <= am && an % WORD_BITS == 0 && FirstSet(b[..], n, an, an)
      decreases am - an
    {
      WholeWord(an);
      found, r := FirstInWord(b, an / WORD_BITS, AllOnes(), an, an + WORD_BITS);
      if found {
        FirstLater(b[..], n, an, an + WORD_BITS, r);
        FirstSooner(b[..], n, an + WORD_BITS, m, r);
        return;
      }
      FirstLater(b[..], n, an, an + WORD_BITS, an + WORD_BITS);
      an := an + WORD_BITS;
    }
    if m > am {
      TailWord(m);
      found, r := FirstInWord(b, m / WORD_BITS, TailMask(m), am, m);
      if found {
        FirstLater(b[..], n, am, m, r);
        return;
      }
      FirstLater(b[..], n, am, m, m);
    }
    return m;
  }

  lemma NoFirst(b: seq<Word>, n: nat)
    ensures FirstSet(b, n, n, n)
  {
  }

  lemma WholeWord(an: nat)
    requires an % WORD_BITS == 0
    ensures an / WORD_BITS * WORD_BITS == an && (an / WORD_BITS + 1) * WORD_BITS == an + WORD_BITS
  {
  }

  // ---------- Allocation ----------

  /** A bitmap of nbits with all bits set. */
  method BitmapAlloc1(nbits: nat) returns (b: array<Word>)
    ensures fresh(b) && nbits <= b.Length * WORD_BITS
    ensures forall i: nat :: i < nbits ==> Bit(b[..], i)
  {
    b := new Word[NWords(nbits)](_ => AllOnes());
  }

  /** A bitmap of another size; the first bits are as they were, new ones are set. */
  method BitmapRealloc1(old_: array<Word>, obits: nat, nbits: nat) returns (b: array<Word>)
    requires obits <= old_.Length * WORD_BITS
    ensures fresh(b) && nbits <= b.Length * WORD_BITS
    ensures forall i: nat :: i < nbits ==> (Bit(b[..], i) <==> i >= obits || Bit(old_[..], i))
  {
    b := new Word[NWords(nbits)];
    var k := 0;
    while k < b.Length && k < old_.Length
      invariant 0 <= k <= b.Length && k <= old_.Length
      invariant forall j :: 0 <= j < k ==> b[j] == old_[j]
    {
      b[k] := old_[k];
      k := k + 1;
    }
    ghost var s := b[..];
    forall i: nat | i < obits && i < nbits
      ensures Bit(s, i) <==> Bit(old_[..], i)
    {
      assert i / WORD_BITS < k;
    }
    if nbits > obits {
      BitmapFillRange(b, obits, nbits);
    }
  }
}
