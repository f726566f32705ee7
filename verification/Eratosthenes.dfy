/** The sieve of Eratosthenes over the odd numbers, which can be continued to a higher limit. */
module Eratosthenes {
  import opened Bitmap
  import opened Primes
  import opened PrimeGaps

  function ValToBit(v: nat): nat
    requires v >= 3
  {
    (v - 3) / 2
  }

  function BitToVal(b: nat): nat {
    b * 2 + 3
  }

  function LimitToNBits(l: nat): nat {
    if l > 2 then (l - 2) / 2 else 0
  }

  lemma BitsAreOdds(l: nat, i: nat)
    ensures i < LimitToNBits(l) <==> BitToVal(i) < l
    ensures ValToBit(BitToVal(i)) == i
  {
  }

  // ---------- What the bits say ----------

  /** A number has no divisor between 1 and p, and itself. */
  ghost predicate Sifted(v: nat, p: nat) {
    forall d :: 2 <= d < p && d < v ==> !Divides(d, v)
  }

  /** The bits up to n stand for odd numbers sifted by all up to p; no prime is missing. */
  ghost predicate SiftedUpTo(b: seq<Word>, n: nat, p: nat) {
    forall i: nat :: i < n ==> (Bit(b, i) ==> Sifted(BitToVal(i), p)) && (Prime(BitToVal(i)) ==> Bit(b, i))
  }

  /** The bits up to n stand for the primes. */
  ghost predicate PrimesUpTo(b: seq<Word>, n: nat) {
    forall i: nat :: i < n ==> (Bit(b, i) <==> Prime(BitToVal(i)))
  }

  lemma OddNotEven(v: nat, i: nat)
    requires v == BitToVal(i)
    ensures !Divides(2, v)
  {
  }

  /** Numbers below the square of p that are sifted up to p are prime. */
  lemma SiftedIsPrime(b: seq<Word>, limit: nat, p: nat)
    requires SiftedUpTo(b, LimitToNBits(limit), p) && limit <= p * p
    ensures PrimesUpTo(b, LimitToNBits(limit))
  {
    hide Times, Divides, Bit;
    forall i: nat | i < LimitToNBits(limit)
      ensures Bit(b, i) <==> Prime(BitToVal(i))
    {
      var v := BitToVal(i);
      BitsAreOdds(limit, i);
      if Bit(b, i) && !Prime(v) {
        var d := LeastDivisor(v);
        Smaller(d, p);
      }
    }
  }

  lemma SquaresGrow(p: nat, d: nat)
    ensures p <= d ==> p * p <= d * d
  {
    if p <= d {
      assert p * p <= p * d <= d * d;
    }
  }

  lemma Smaller(d: nat, p: nat)
    requires d * d < p * p
    ensures d < p
  {
    SquaresGrow(p, d);
  }

  // ---------- One prime ----------

  /** Step t from a bit on by p. */
  function At(start: nat, p: nat, t: nat): nat {
    start + Times(p, t)
  }

  /** The bits that are cleared from start on. */
  ghost predicate Struck(start: nat, p: nat, i: nat) {
    exists t: nat :: At(start, p, t) == i
  }

  function OddTimes(p: nat, k: nat): nat {
    p * (2 * k + 1)
  }

  /** The bit stands for an odd multiple of p, greater than p. */
  ghost predicate OfMultiple(p: nat, i: nat) {
    exists k: nat :: k >= 1 && OddTimes(p, k) == BitToVal(i)
  }

  /** The first of them from bit obits on. */
  ghost predicate FirstMultiple(start: nat, p: nat, obits: nat) {
    OfMultiple(p, start) && forall i: nat :: obits <= i && OfMultiple(p, i) ==> start <= i
  }

  lemma TripleIsFirst(p: nat, n: nat)
    requires p >= 3 && p % 2 == 1 && n == ValToBit(3 * p)
    ensures BitToVal(n) == 3 * p && OfMultiple(p, n)
    ensures forall i: nat :: OfMultiple(p, i) ==> n <= i
  {
    ThreeTimes(p, n);
    hide ValToBit, OddTimes;
    forall i: nat | OfMultiple(p, i)
      ensures n <= i
    {
      var k: nat :| k >= 1 && OddTimes(p, k) == BitToVal(i);
      ThreeOrMore(p, k);
    }
  }

  lemma ThreeTimes(p: nat, n: nat)
    requires p >= 3 && p % 2 == 1 && n == ValToBit(3 * p)
    ensures BitToVal(n) == 3 * p && OddTimes(p, 1) == 3 * p
  {
  }

  lemma ThreeOrMore(p: nat, k: nat)
    requires k >= 1
    ensures OddTimes(p, k) >= 3 * p
  {
    assert p * (2 * k + 1) >= p * 3;
  }

  /** The bit to start from when the first obits are done already. */
  function Skipped(n: nat, p: nat, obits: nat): nat
    requires p >= 1 && obits > n
  {
    obits + p - 1 - (obits - n - 1) % p
  }

  lemma SkippedIsFirst(p: nat, n: nat, obits: nat)
    requires p >= 3 && p % 2 == 1 && n == ValToBit(3 * p) && obits > n
    ensures FirstMultiple(Skipped(n, p, obits), p, obits) && Skipped(n, p, obits) >= obits
  {
    var t, start := obits - n - 1, Skipped(n, p, obits);
    var q := t / p;
    SkippedBy(p, n, t, q, start, obits);
    ThreeTimes(p, n);
    SkippedValue(p, n, q, start);
    hide ValToBit, OddTimes, Skipped;
    assert OfMultiple(p, start);
    forall i: nat | obits <= i && OfMultiple(p, i)
      ensures start <= i
    {
      var k: nat :| k >= 1 && OddTimes(p, k) == BitToVal(i);
      MultipleLater(p, n, q, k, i, obits, start);
    }
  }

  lemma SkippedValue(p: nat, n: nat, q: nat, start: nat)
    requires BitToVal(n) == 3 * p && start == n + p * (q + 1)
    ensures OddTimes(p, q + 2) == BitToVal(start)
  {
    OddMultiple(p, q, BitToVal(start));
  }

  lemma SkippedBy(p: nat, n: nat, t: nat, q: nat, start: nat, obits: nat)
    requires p >= 1 && t == obits - n - 1 && q == t / p && start == obits + p - 1 - t % p
    ensures start == n + p * (q + 1) && obits <= start < obits + p
  {
    assert t == p * q + t % p;
    assert p * (q + 1) == p * q + p;
  }

  lemma OddMultiple(p: nat, q: nat, v: nat)
    requires v == 3 * p + 2 * (p * (q + 1))
    ensures OddTimes(p, q + 2) == v
  {
    assert p * (2 * (q + 2) + 1) == 2 * (p * (q + 1)) + 3 * p;
  }

  lemma MultipleLater(p: nat, n: nat, q: nat, k: nat, i: nat, obits: nat, start: nat)
    requires p >= 3 && 2 * n + 3 == 3 * p && start == n + p * (q + 1) && start < obits + p && obits <= i && k >= 1
    requires OddTimes(p, k) == BitToVal(i)
    ensures start <= i
  {
    var d := k - 1 - (q + 1);
    assert p * (2 * k + 1) == 2 * (p * k) + p;
    assert p * d == p * k - p - p * (q + 1);
    NegativeTimes(p, d);
  }

  lemma NegativeTimes(p: nat, d: int)
    ensures d < 0 ==> p * d <= 0 - p
    ensures d >= 0 ==> p * d >= 0
  {
  }

  // ---------- Striking the multiples of one prime ----------

  /** The bit from which every p-th stands for an odd multiple of p is struck in steps of p. */
  lemma StruckAreMultiples(start: nat, p: nat, i: nat)
    requires p >= 1 && OfMultiple(p, start) && Struck(start, p, i)
    ensures OfMultiple(p, i)
  {
    var k: nat :| k >= 1 && OddTimes(p, k) == BitToVal(start);
    var t: nat :| At(start, p, t) == i;
    assert OddTimes(p, k + t) == BitToVal(i) by {
      assert p * (2 * (k + t) + 1) == p * (2 * k + 1) + 2 * (p * t);
    }
  }

  lemma OddTimesApart(p: nat, k: nat, l: nat)
    ensures OddTimes(p, l) - OddTimes(p, k) == 2 * (p * (l - k))
  {
  }

  lemma MultiplesAreStruck(start: nat, p: nat, i: nat)
    requires p >= 1 && OfMultiple(p, start) && OfMultiple(p, i) && start <= i
    ensures Struck(start, p, i)
  {
    var k: nat :| k >= 1 && OddTimes(p, k) == BitToVal(start);
    var l: nat :| l >= 1 && OddTimes(p, l) == BitToVal(i);
    OddTimesApart(p, k, l);
    NegativeTimes(p, l - k);
    hide OddTimes;
    assert i - start == p * (l - k) && l - k >= 0;
    assert At(start, p, l - k) == i;
  }

  /** From p on to the next bit set: what that bit stands for. */
  lemma SiftedMore(b: seq<Word>, b': seq<Word>, n: nat, obits: nat, p: nat, start: nat)
    requires p >= 3 && SiftedUpTo(b, n, p) && PrimesUpTo(b, obits) && obits <= n
    requires FirstMultiple(start, p, obits) && start >= obits
    requires forall i: nat :: i < n ==> (Bit(b', i) <==> Bit(b, i) && !Struck(start, p, i))
    ensures SiftedUpTo(b', n, p + 1) && PrimesUpTo(b', obits)
  {
    hide Bit, Struck, OfMultiple, Divides;
    forall i: nat | i < n
      ensures (Bit(b', i) ==> Sifted(BitToVal(i), p + 1)) && (Prime(BitToVal(i)) ==> Bit(b', i))
      ensures i < obits ==> (Bit(b', i) <==> Prime(BitToVal(i)))
    {
      BitSifted(b, b', n, obits, p, start, i);
    }
  }

  lemma BitSifted(b: seq<Word>, b': seq<Word>, n: nat, obits: nat, p: nat, start: nat, i: nat)
    requires p >= 3 && SiftedUpTo(b, n, p) && PrimesUpTo(b, obits) && obits <= n && i < n
    requires FirstMultiple(start, p, obits) && start >= obits
    requires Bit(b', i) <==> Bit(b, i) && !Struck(start, p, i)
    ensures Bit(b', i) ==> Sifted(BitToVal(i), p + 1)
    ensures Prime(BitToVal(i)) ==> Bit(b', i)
    ensures i < obits ==> (Bit(b', i) <==> Prime(BitToVal(i)))
  {
    hide Bit, OfMultiple, Divides;
    var v := BitToVal(i);
    if Struck(start, p, i) {
      StruckLater(start, p, i);
      StruckAreMultiples(start, p, i);
      MultipleNotPrime(p, i);
    } else if Bit(b, i) {
      if p < v && Divides(p, v) && i >= obits {
        DividedIsMultiple(p, i);
        MultiplesAreStruck(start, p, i);
      }
      assert i < obits ==> Prime(v);
    }
  }

  lemma StruckLater(start: nat, p: nat, i: nat)
    requires Struck(start, p, i)
    ensures start <= i
  {
  }

  lemma MultipleNotPrime(p: nat, i: nat)
    requires p >= 3 && OfMultiple(p, i)
    ensures !Prime(BitToVal(i)) && p < BitToVal(i) && Divides(p, BitToVal(i))
  {
    var k: nat :| k >= 1 && OddTimes(p, k) == BitToVal(i);
    ThreeOrMore(p, k);
    assert Times(p, 2 * k + 1) == BitToVal(i);
    assert Divides(p, BitToVal(i)) && p < BitToVal(i);
  }

  lemma EvenTimes(p: nat, h: nat)
    ensures Times(p, 2 * h) == 2 * (p * h)
  {
  }

  lemma DividedIsMultiple(p: nat, i: nat)
    requires p >= 2 && Divides(p, BitToVal(i)) && p < BitToVal(i)
    ensures OfMultiple(p, i)
  {
    var v := BitToVal(i);
    var m: nat :| Times(p, m) == v;
    EvenTimes(p, m / 2);
    assert m % 2 == 1;
    assert m == 1 ==> v == p;
    assert OddTimes(p, m / 2) == v;
  }

  /** Between p and the next bit set there is no prime, and that bit stands for one. */
  lemma NextIsPrime(b: seq<Word>, n: nat, p: nat, r: nat)
    requires p >= 3 && p % 2 == 1 && SiftedUpTo(b, n, p + 1) && FirstSet(b, ValToBit(p) + 1, n, r)
    ensures SiftedUpTo(b, n, BitToVal(r)) || r == n
    ensures r < n ==> Prime(BitToVal(r)) && forall q :: p < q < BitToVal(r) ==> !Prime(q)
    ensures r == n ==> forall q :: p < q < BitToVal(n) ==> !Prime(q)
  {
    hide Bit, Divides;
    forall q: nat | p < q < BitToVal(r)
      ensures !Prime(q)
    {
      NotBetween(b, n, p, r, q);
    }
    if r < n {
      forall i: nat | i < n && Bit(b, i)
        ensures Sifted(BitToVal(i), BitToVal(r))
      {
        SiftedFurther(BitToVal(i), p + 1, BitToVal(r));
      }
      SiftedBySelf(BitToVal(r), p + 1);
    }
  }

  lemma NotBetween(b: seq<Word>, n: nat, p: nat, r: nat, q: nat)
    requires p >= 3 && p % 2 == 1 && SiftedUpTo(b, n, p + 1) && FirstSet(b, ValToBit(p) + 1, n, r)
    requires p < q < BitToVal(r)
    ensures !Prime(q)
  {
    hide Bit;
    if q % 2 == 0 {
      assert Times(2, q / 2) == q;
      assert Divides(2, q);
    } else {
      var i := ValToBit(q);
      assert BitToVal(i) == q && ValToBit(p) + 1 <= i < r;
    }
  }

  /** Without primes from p up to p', what is sifted up to p is sifted up to p'. */
  lemma SiftedFurther(v: nat, p: nat, p': nat)
    requires Sifted(v, p) && v % 2 == 1 && p >= 3
    requires forall q :: p <= q < p' ==> !Prime(q)
    ensures Sifted(v, p')
  {
    hide Divides;
    forall d | 2 <= d < p' && d < v
      ensures !Divides(d, v)
    {
      if d >= p && Divides(d, v) {
        var e := LeastDivisor(d);
        Transitive(e, d, v);
      }
    }
  }

  lemma SiftedBySelf(v: nat, p: nat)
    requires v >= 3 && Sifted(v, p) && v % 2 == 1 && p >= 3
    requires forall q :: p <= q < v ==> !Prime(q)
    ensures Prime(v)
  {
    SiftedFurther(v, p, v);
  }

  // ---------- The sieve ----------

  class Eratosthenes {
    var limit: nat
    var b: array<Word>

    /** The bits stand for the primes below the limit. */
    ghost predicate Valid()
      reads this, b
    {
      && (limit == 0 || limit >= 3)
      && LimitToNBits(limit) <= b.Length * WORD_BITS
      && PrimesUpTo(b[..], LimitToNBits(limit))
    }

    constructor ()
      ensures Valid() && limit == 0 && fresh(b)
    {
      limit := 0;
      b := new Word[0];
    }

    /** Strike the multiples of p, from where the sieve has not been yet. */
    method EratosthenesOnce(newLimit: nat, p: nat)
      requires p >= 3 && p % 2 == 1 && limit <= newLimit && LimitToNBits(newLimit) <= b.Length * WORD_BITS
      requires SiftedUpTo(b[..], LimitToNBits(newLimit), p) && PrimesUpTo(b[..], LimitToNBits(limit))
      modifies b
      ensures SiftedUpTo(b[..], LimitToNBits(newLimit), p + 1) && PrimesUpTo(b[..], LimitToNBits(limit))
    {
      hide Bit, SiftedUpTo, PrimesUpTo, OfMultiple, FirstMultiple, Skipped, Times;
      ghost var s := b[..];
      var n := ValToBit(3 * p);
      var obits := LimitToNBits(limit);
      TripleIsFirst(p, n);
      FirstOfAll(n, p, obits);
      if obits > n {
        SkippedIsFirst(p, n, obits);
        n := Skipped(n, p, obits);
      }
      FirstIsMultiple(n, p, obits);
      ghost var start, t: nat := n, 0;
      NoTimes(start, p);
      while n < LimitToNBits(newLimit)
        invariant b.Length == |s| && n == At(start, p, t)
        invariant forall i: nat :: Bit(b[..], i) <==> Bit(s, i) && !StruckBefore(start, p, t, i)
        decreases LimitToNBits(newLimit) - n
      {
        BitmapClearBit(b, n);
        StruckNext(start, p, t);
        n := n + p;
        t := t + 1;
      }
      AllStruck(s, b[..], LimitToNBits(newLimit), start, p, t);
      SiftedMore(s, b[..], LimitToNBits(newLimit), obits, p, start);
    }

    /** Strike the multiples of one prime after the other; there always is a next one below the limit. */
    method EratosthenesSieveOn(newLimit: nat)
      requires limit <= newLimit && newLimit >= 3 && LimitToNBits(newLimit) <= b.Length * WORD_BITS
      requires SiftedUpTo(b[..], LimitToNBits(newLimit), 3) && PrimesUpTo(b[..], LimitToNBits(limit))
      modifies b
      ensures PrimesUpTo(b[..], LimitToNBits(newLimit))
    {
      hide Bit, SiftedUpTo, PrimesUpTo, Prime, FirstSet;
      var p := 3;
      ThreeIsPrime();
      while p * p < newLimit
        invariant 3 <= p && p % 2 == 1 && Prime(p) && (p == 3 || p < newLimit)
        invariant SiftedUpTo(b[..], LimitToNBits(newLimit), p) && PrimesUpTo(b[..], LimitToNBits(limit))
        decreases newLimit - p
      {
        EratosthenesOnce(newLimit, p);
        RoomAbove(p, newLimit);
        var n := BitmapFfs(b, ValToBit(p) + 1, LimitToNBits(newLimit));
        FirstFacts(b[..], ValToBit(p) + 1, LimitToNBits(newLimit), n);
        NextIsPrime(b[..], LimitToNBits(newLimit), p, n);
        BitsAreOdds(newLimit, n);
        ghost var q := PrimeBetween(p);
        assert n < LimitToNBits(newLimit);
        p := BitToVal(n);
      }
      SiftedIsPrime(b[..], newLimit, p);
    }

    /** Continue the sieve up to a new limit, if that is higher. */
    method EratosthenesSieve(newLimit: nat)
      requires Valid()
      modifies this, b
      ensures Valid() && (b == old(b) || fresh(b))
      ensures limit == if newLimit < 3 || newLimit <= old(limit) then old(limit) else newLimit
    {
      if newLimit < 3 || newLimit <= limit {
        return;
      }
      ghost var s := b[..];
      if limit < 3 {
        b := BitmapAlloc1(LimitToNBits(newLimit));
      } else {
        b := BitmapRealloc1(b, LimitToNBits(limit), LimitToNBits(newLimit));
      }
      NewBits(s, b[..], LimitToNBits(limit), LimitToNBits(newLimit));
      EratosthenesSieveOn(newLimit);
      limit := newLimit;
    }

    /** Whether a number below the limit is prime. */
    method EratosthenesIsPrime(n: nat) returns (r: bool)
      requires Valid() && n < limit
      ensures r <==> Prime(n)
    {
      SmallPrimes(n);
      if n % 2 == 0 {
        return n == 2;
      }
      if n < 3 {
        return false;
      }
      BitsAreOdds(limit, ValToBit(n));
      r := BitmapTestBit(b, ValToBit(n));
    }

    /** The least prime above a number and below the limit; 0 if there is none. */
    method EratosthenesNextPrime(n: nat) returns (r: nat)
      requires Valid()
      ensures r != 0 ==> n < r < limit && Prime(r) && forall q :: n < q < r ==> !Prime(q)
      ensures r == 0 ==> forall q :: n < q < limit ==> !Prime(q)
    {
      hide Prime, Bit;
      if n + 1 >= limit {
        return 0;
      }
      SmallPrimes(0);
      SmallPrimes(1);
      SmallPrimes(2);
      ThreeIsPrime();
      if n < 2 {
        return 2;
      }
      if n == 2 {
        return 3;
      }
      RoomBelow(n, limit);
      var i := BitmapFfs(b, ValToBit(n) + 1, LimitToNBits(limit));
      NextOfPrimes(b[..], n, limit, i);
      if i == LimitToNBits(limit) {
        return 0;
      }
      return BitToVal(i);
    }
  }

  lemma RoomAbove(p: nat, limit: nat)
    requires p >= 3 && p * p < limit
    ensures ValToBit(p) + 1 <= LimitToNBits(limit)
  {
    assert p * p >= 3 * p;
  }

  lemma RoomBelow(n: nat, limit: nat)
    requires 3 <= n && n + 1 < limit
    ensures ValToBit(n) + 1 <= LimitToNBits(limit)
  {
  }

  lemma FirstFacts(b: seq<Word>, n: nat, m: nat, r: nat)
    requires FirstSet(b, n, m, r)
    ensures n <= r <= m
  {
  }

  /** The bits there were are those of primes; the new ones are all set. */
  lemma NewBits(s: seq<Word>, b: seq<Word>, obits: nat, n: nat)
    requires PrimesUpTo(s, obits) && obits <= n
    requires forall i: nat :: i < n ==> (Bit(b, i) <==> i >= obits || Bit(s, i))
    ensures SiftedUpTo(b, n, 3) && PrimesUpTo(b, obits)
  {
    hide Bit, Divides;
    forall i: nat | i < n
      ensures Sifted(BitToVal(i), 3)
    {
      OddNotEven(BitToVal(i), i);
    }
  }

  lemma NextOfPrimes(b: seq<Word>, n: nat, limit: nat, i: nat)
    requires n >= 3 && n + 1 < limit && PrimesUpTo(b, LimitToNBits(limit))
    requires FirstSet(b, ValToBit(n) + 1, LimitToNBits(limit), i)
    ensures i < LimitToNBits(limit) ==> n < BitToVal(i) < limit && Prime(BitToVal(i))
    ensures forall q :: n < q < limit && q < BitToVal(i) ==> !Prime(q)
  {
    hide Bit, Prime;
    BitsAreOdds(limit, i);
    forall q: nat | n < q < limit && q < BitToVal(i)
      ensures !Prime(q)
    {
      if q % 2 == 0 {
        SmallPrimes(q);
      } else {
        var j := ValToBit(q);
        BitsAreOdds(limit, j);
        assert BitToVal(j) == q && ValToBit(n) + 1 <= j < i;
      }
    }
  }

  ghost predicate StruckBefore(start: nat, p: nat, n: nat, i: nat) {
    exists t: nat :: t < n && At(start, p, t) == i
  }

  lemma NoTimes(start: nat, p: nat)
    ensures At(start, p, 0) == start
    ensures forall i: nat :: !StruckBefore(start, p, 0, i)
  {
  }

  lemma StruckNext(start: nat, p: nat, t: nat)
    requires p >= 1
    ensures At(start, p, t + 1) == At(start, p, t) + p
    ensures forall i: nat :: StruckBefore(start, p, t + 1, i) <==> StruckBefore(start, p, t, i) || i == At(start, p, t)
  {
    forall i: nat
      ensures StruckBefore(start, p, t + 1, i) <==> StruckBefore(start, p, t, i) || i == At(start, p, t)
    {
      if StruckBefore(start, p, t + 1, i) {
        var u: nat :| u < t + 1 && At(start, p, u) == i;
      }
    }
  }

  lemma AllStruck(s: seq<Word>, b: seq<Word>, n: nat, start: nat, p: nat, t: nat)
    requires p >= 1 && At(start, p, t) >= n
    requires forall i: nat :: Bit(b, i) <==> Bit(s, i) && !StruckBefore(start, p, t, i)
    ensures forall i: nat :: i < n ==> (Bit(b, i) <==> Bit(s, i) && !Struck(start, p, i))
  {
    hide Bit;
    forall i: nat | i < n
      ensures StruckBefore(start, p, t, i) <==> Struck(start, p, i)
    {
      if Struck(start, p, i) {
        var u: nat :| At(start, p, u) == i;
        TimesGrow(p, t, u);
      }
    }
  }

  lemma TimesGrow(p: nat, t: nat, u: nat)
    requires p >= 1
    ensures t <= u ==> Times(p, t) <= Times(p, u)
  {
    if t <= u {
      assert p * u == p * t + p * (u - t);
      NegativeTimes(p, u - t);
    }
  }

  lemma FirstOfAll(n: nat, p: nat, obits: nat)
    requires OfMultiple(p, n) && forall i: nat :: OfMultiple(p, i) ==> n <= i
    ensures FirstMultiple(n, p, obits)
  {
  }

  /** The assertions before the strikes: the bit stands for a multiple of p, and not for p. */
  lemma FirstIsMultiple(n: nat, p: nat, obits: nat)
    requires p >= 3 && FirstMultiple(n, p, obits)
    ensures Divides(p, BitToVal(n)) && BitToVal(n) > p
  {
    MultipleNotPrime(p, n);
  }
}
