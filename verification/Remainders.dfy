/** Polynomials over the field of two elements, and division by one of them, bit after bit. */
module Remainders {
  /** A polynomial is the set of the exponents whose coefficient is one. */
  type Poly = set<nat>

  function Plus(a: Poly, b: Poly): Poly {
    (a - b) + (b - a)
  }

  /** a times x to the n. */
  function Shifted(a: Poly, n: nat): Poly {
    set e | e in a :: e + n
  }

  /** The polynomial of a sequence of bits, the highest exponent first. */
  function OfBits(bits: seq<bool>): Poly {
    set e: nat | e < |bits| && Coefficient(bits, e)
  }

  predicate Coefficient(bits: seq<bool>, e: nat)
    requires e < |bits|
  {
    bits[|bits| - 1 - e]
  }

  /** q times p, where q is given by its bits. */
  ghost function Times(q: seq<bool>, p: Poly): Poly {
    if q == [] then {}
    else Plus(Shifted(Times(q[..|q| - 1], p), 1), if q[|q| - 1] then p else {})
  }

  /** r is the remainder of a divided by p, whose degree is width. */
  ghost predicate IsRemainder(a: Poly, p: Poly, width: nat, r: Poly) {
    && (forall e :: e in r ==> e < width)
    && exists q :: a == Plus(Times(q, p), r)
  }

  /** What is divided: a start value in front of the bits, times x to the width. */
  ghost function Dividend(start: Poly, bits: seq<bool>, width: nat): Poly {
    Plus(Shifted(start, |bits|), Shifted(OfBits(bits), width))
  }

  lemma NoBits(start: Poly, width: nat)
    ensures Dividend(start, [], width) == start
  {
    assert OfBits([]) == {};
  }

  lemma ShiftedPlus(a: Poly, b: Poly, n: nat)
    ensures Shifted(Plus(a, b), n) == Plus(Shifted(a, n), Shifted(b, n))
  {
    forall e: nat
      ensures e in Shifted(Plus(a, b), n) <==> e in Plus(Shifted(a, n), Shifted(b, n))
    {
      if e >= n {
        assert forall c: Poly :: e in Shifted(c, n) <==> e - n in c;
      }
    }
  }

  lemma ShiftedTwice(a: Poly, m: nat, n: nat)
    ensures Shifted(Shifted(a, m), n) == Shifted(a, m + n)
  {
    forall e: nat | e in a
      ensures e + m + n in Shifted(Shifted(a, m), n)
    {
      assert e + m in Shifted(a, m);
    }
  }

  lemma OneMoreBit(bits: seq<bool>, bit: bool)
    ensures OfBits(bits + [bit]) == Plus(Shifted(OfBits(bits), 1), if bit then {0} else {})
  {
    var more := bits + [bit];
    forall e: nat
      ensures e in OfBits(more) <==> e in Plus(Shifted(OfBits(bits), 1), if bit then {0} else {})
    {
      if e > 0 {
        assert e - 1 < |bits| ==> Coefficient(more, e) == Coefficient(bits, e - 1);
        assert e in Shifted(OfBits(bits), 1) <==> e - 1 in OfBits(bits);
      }
    }
  }

  /** The next bit: what there was times x, and the bit times x to the width. */
  lemma DividendNext(start: Poly, bits: seq<bool>, bit: bool, width: nat)
    ensures Dividend(start, bits + [bit], width) ==
            Plus(Shifted(Dividend(start, bits, width), 1), if bit then {width} else {})
  {
    hide Plus, OfBits;
    var s, b, c := Shifted(start, |bits|), Shifted(OfBits(bits), width), if bit then {width} else {};
    OneMoreBit(bits, bit);
    ShiftedTwice(start, |bits|, 1);
    ShiftedTwice(OfBits(bits), 1, width);
    ShiftedTwice(OfBits(bits), width, 1);
    ShiftedPlus(Shifted(OfBits(bits), 1), if bit then {0} else {}, width);
    assert Shifted(if bit then {0} else {}, width) == c;
    ShiftedPlus(s, b, 1);
    PlusAssoc(Shifted(s, 1), Shifted(b, 1), c);
  }

  lemma PlusAssoc(a: Poly, b: Poly, c: Poly)
    ensures Plus(Plus(a, b), c) == Plus(a, Plus(b, c))
  {
  }

  lemma PlusSelf(a: Poly)
    ensures Plus(a, a) == {} && Plus(a, {}) == a && Plus({}, a) == a
  {
  }

  lemma FourTerms(a: Poly, b: Poly, c: Poly, d: Poly)
    ensures Plus(Plus(a, b), Plus(c, d)) == Plus(Plus(a, c), Plus(b, d))
  {
  }

  /** The remainder after one bit more. */
  function Next(r: Poly, bit: bool, p: Poly, width: nat): Poly {
    var t := Plus(Shifted(r, 1), if bit then {width} else {});
    if width in t then Plus(t, p) else t
  }

  /** One step of the division. */
  lemma Divided(a: Poly, p: Poly, width: nat, r: Poly, bit: bool)
    requires IsRemainder(a, p, width, r) && width in p && forall e :: e in p ==> e <= width
    ensures IsRemainder(Plus(Shifted(a, 1), if bit then {width} else {}), p, width, Next(r, bit, p, width))
  {
    var q :| a == Plus(Times(q, p), r);
    var c := if bit then {width} else {};
    var t := Plus(Shifted(r, 1), c);
    var carry := width in t;
    var more := q + [carry];
    assert more[..|more| - 1] == q;
    var m := if carry then p else {};
    assert Times(more, p) == Plus(Shifted(Times(q, p), 1), m);
    NextBounded(p, width, r, bit);
    hide Plus, Times, Shifted;
    ShiftedPlus(Times(q, p), r, 1);
    QuotientGrows(Shifted(Times(q, p), 1), Shifted(r, 1), c, m);
    PlusSelf(t);
  }

  lemma QuotientGrows(q: Poly, r: Poly, c: Poly, m: Poly)
    ensures Plus(Plus(q, r), c) == Plus(Plus(q, m), Plus(Plus(r, c), m))
  {
  }

  lemma NextBounded(p: Poly, width: nat, r: Poly, bit: bool)
    requires width in p && (forall e :: e in p ==> e <= width) && forall e :: e in r ==> e < width
    ensures forall e :: e in Next(r, bit, p, width) ==> e < width
  {
  }

  lemma ItsOwnRemainder(a: Poly, p: Poly, width: nat)
    requires forall e :: e in a ==> e < width
    ensures IsRemainder(a, p, width, a)
  {
    assert Times([], p) == {};
  }

  // ---------- There is only one remainder ----------

  /** Two multiples add up to a multiple. */
  lemma {:induction false} MultiplesAdd(q: seq<bool>, q': seq<bool>, p: Poly) returns (s: seq<bool>)
    ensures Times(s, p) == Plus(Times(q, p), Times(q', p))
    decreases |q|
  {
    if q == [] {
      s := q';
      PlusSelf(Times(q', p));
    } else if q' == [] {
      s := q;
      PlusSelf(Times(q, p));
    } else {
      var c, c' := q[|q| - 1], q'[|q'| - 1];
      var init := MultiplesAdd(q[..|q| - 1], q'[..|q'| - 1], p);
      s := init + [c != c'];
      assert s[..|s| - 1] == init;
      hide Times, Plus, Shifted;
      TimesLast(q, p);
      TimesLast(q', p);
      TimesLast(s, p);
      var t, t' := Times(q[..|q| - 1], p), Times(q'[..|q'| - 1], p);
      ShiftedPlus(t, t', 1);
      FourTerms(Shifted(t, 1), Shifted(t', 1), if c then p else {}, if c' then p else {});
      PlusSelf(p);
      PlusSelf({});
    }
  }

  lemma TimesLast(q: seq<bool>, p: Poly)
    requires q != []
    ensures Times(q, p) == Plus(Shifted(Times(q[..|q| - 1], p), 1), if q[|q| - 1] then p else {})
  {
  }

  /** A multiple that is not zero has at least the degree of p. */
  lemma {:induction false} MultipleIsLarge(q: seq<bool>, p: Poly, width: nat)
    requires width in p && forall e :: e in p ==> e <= width
    ensures Times(q, p) == {} || exists e :: e in Times(q, p) && e >= width
    decreases |q|
  {
    if q != [] {
      var t := Times(q[..|q| - 1], p);
      MultipleIsLarge(q[..|q| - 1], p, width);
      assert t == {} ==> Shifted(t, 1) == {};
      if e :| e in t && e >= width {
        assert e + 1 in Shifted(t, 1) && e + 1 !in p;
        assert e + 1 in Times(q, p);
      } else if q[|q| - 1] {
        assert width in Times(q, p);
      } else {
        assert Times(q, p) == {};
      }
    }
  }

  lemma RemainderUnique(a: Poly, p: Poly, width: nat, r: Poly, r': Poly)
    requires width in p && forall e :: e in p ==> e <= width
    requires IsRemainder(a, p, width, r) && IsRemainder(a, p, width, r')
    ensures r == r'
  {
    var q :| a == Plus(Times(q, p), r);
    var q' :| a == Plus(Times(q', p), r');
    var s := MultiplesAdd(q, q', p);
    MultipleIsLarge(s, p, width);
    hide Times;
    SameSum(Times(q, p), r, Times(q', p), r');
  }

  lemma SameSum(t: Poly, r: Poly, t': Poly, r': Poly)
    requires Plus(t, r) == Plus(t', r')
    ensures Plus(t, t') == Plus(r, r')
    ensures Plus(r, r') == {} ==> r == r'
  {
    assert Plus(Plus(t, r), r) == t && Plus(Plus(t', r'), r') == t';
  }

  /** A smaller polynomial is added. */
  lemma RemainderPlus(a: Poly, p: Poly, width: nat, r: Poly, y: Poly)
    requires IsRemainder(a, p, width, r) && forall e :: e in y ==> e < width
    ensures IsRemainder(Plus(a, y), p, width, Plus(r, y))
  {
    var q :| a == Plus(Times(q, p), r);
    hide Times;
    PlusAssoc(Times(q, p), r, y);
  }
}
