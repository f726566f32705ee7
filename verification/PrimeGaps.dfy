/** Between a prime and its square there is another prime.

A common multiple of 1, ..., m is at least 2 to the m - 1.  If all primes up to p * p were at most p, there would be a
smaller one: the product, over the primes up to p, of their greatest powers up to p * p. */
module PrimeGaps {
  import opened Primes

  // ---------- Powers ----------

  function Pow(b: nat, n: nat): nat {
    if n == 0 then 1 else b * Pow(b, n - 1)
  }

  lemma {:induction false} PowSum(b: nat, m: nat, n: nat)
    ensures Pow(b, m + n) == Pow(b, m) * Pow(b, n)
  {
    if m > 0 {
      PowSum(b, m - 1, n);
      Regrouped(b, Pow(b, m - 1), Pow(b, n));
    }
  }

  lemma Regrouped(a: int, b: int, c: int)
    ensures a * (b * c) == a * b * c
  {
  }

  lemma {:induction false} PowPositive(b: nat, n: nat)
    requires b > 0
    ensures Pow(b, n) > 0
  {
    if n > 0 {
      PowPositive(b, n - 1);
    }
  }

  lemma MonotoneProduct(a: nat, b: nat, c: nat, d: nat)
    requires a <= b && c <= d
    ensures a * c <= b * d
  {
    assert a * c <= b * c <= b * d;
  }

  lemma {:induction false} PowMonotone(a: nat, b: nat, n: nat)
    requires a <= b
    ensures Pow(a, n) <= Pow(b, n)
  {
    if n > 0 {
      PowMonotone(a, b, n - 1);
      MonotoneProduct(a, b, Pow(a, n - 1), Pow(b, n - 1));
    }
  }

  lemma {:induction false} PowOfPow(b: nat, m: nat, n: nat)
    ensures Pow(Pow(b, m), n) == Pow(b, m * n)
  {
    if n > 0 {
      PowOfPow(b, m, n - 1);
      PowSum(b, m, m * (n - 1));
      assert m + m * (n - 1) == m * n;
    } else {
      assert m * n == 0;
    }
  }

  // ---------- Binomial coefficients ----------

  function Choose(n: nat, k: nat): nat {
    if k == 0 then 1 else if n == 0 then 0 else Choose(n - 1, k - 1) + Choose(n - 1, k)
  }

  lemma {:induction false} ChooseZero(n: nat, k: nat)
    requires k > n
    ensures Choose(n, k) == 0
  {
    if n > 0 {
      ChooseZero(n - 1, k - 1);
      ChooseZero(n - 1, k);
    }
  }

  lemma {:induction false} ChoosePositive(n: nat, k: nat)
    requires k <= n
    ensures Choose(n, k) > 0
  {
    if k > 0 {
      ChoosePositive(n - 1, k - 1);
    }
  }

  /** (k + 1) C(n + 1, k + 1) == (n + 1) C(n, k) */
  lemma {:induction false} Absorb(n: nat, k: nat)
    ensures (k + 1) * Choose(n + 1, k + 1) == (n + 1) * Choose(n, k)
  {
    if n == 0 {
      ChooseZero(0, k + 1);
      if k > 0 {
        ChooseZero(0, k);
      }
    } else if k == 0 {
      Absorb(n - 1, 0);
    } else {
      Absorb(n - 1, k - 1);
      Absorb(n - 1, k);
      AbsorbStep(k, n, Choose(n - 1, k - 1), Choose(n - 1, k), Choose(n, k), Choose(n, k + 1));
    }
  }

  lemma AbsorbStep(k: nat, n: nat, a: nat, b: nat, c: nat, d: nat)
    requires c == a + b && k * c == n * a && (k + 1) * d == n * b
    ensures (k + 1) * (c + d) == (n + 1) * c
  {
  }

  /** (n + 1 - k) C(n + 1, k) == (n + 1) C(n, k) */
  lemma {:induction false} AbsorbRest(n: nat, k: nat)
    requires k <= n
    ensures (n + 1 - k) * Choose(n + 1, k) == (n + 1) * Choose(n, k)
  {
    if k > 0 {
      Absorb(n, k - 1);
      RestStep(n, k, Choose(n, k - 1), Choose(n, k));
    }
  }

  lemma RestStep(n: nat, k: nat, a: nat, b: nat)
    requires k * (a + b) == (n + 1) * a
    ensures (n + 1 - k) * (a + b) == (n + 1) * b
  {
  }

  /** The sum of the first k binomial coefficients. */
  function ChooseSum(n: nat, k: nat): nat {
    if k == 0 then 0 else ChooseSum(n, k - 1) + Choose(n, k - 1)
  }

  lemma {:induction false} SumStep(n: nat, k: nat)
    ensures ChooseSum(n + 1, k + 1) == ChooseSum(n, k) + ChooseSum(n, k + 1)
  {
    if k > 0 {
      SumStep(n, k - 1);
    }
  }

  lemma {:induction false} RowSum(n: nat)
    ensures ChooseSum(n, n + 1) == Pow(2, n)
  {
    if n > 0 {
      RowSum(n - 1);
      SumStep(n - 1, n);
      ChooseZero(n - 1, n);
    } else {
      assert ChooseSum(0, 1) == ChooseSum(0, 0) + Choose(0, 0);
    }
  }

  // ---------- Common multiples ----------

  ghost predicate CommonMultiple(l: nat, m: nat) {
    l > 0 && forall v :: 1 <= v <= m ==> Divides(v, l)
  }

  /** An entry of Leibniz' triangle. */
  function Leibniz(n: nat, k: nat): nat {
    (n + 1) * Choose(n, k)
  }

  /** A common multiple of 1, ..., n + 1 is one of row n of the triangle too. */
  lemma {:induction false} LeibnizDivides(l: nat, n: nat, k: nat) returns (q: nat)
    requires CommonMultiple(l, n + 1) && k <= n
    ensures Leibniz(n, k) * q == l
    decreases k
  {
    if k == 0 {
      assert Divides(n + 1, l);
      q :| Times(n + 1, q) == l;
    } else {
      var x := LeibnizDivides(l, n - 1, k - 1);
      var y := LeibnizDivides(l, n, k - 1);
      Absorb(n - 1, k - 1);
      AbsorbRest(n - 1, k - 1);
      ChoosePositive(n, k - 1);
      ChoosePositive(n, k);
      q := Quotient(l, n, k, Choose(n - 1, k - 1), Choose(n, k - 1), Choose(n, k), x, y);
    }
  }

  lemma Rotated(a: int, b: int, c: int)
    ensures a * b * c == b * (a * c)
  {
  }

  lemma Apart(r: int, k: int, x: int, y: int)
    requires (r + k) * y == r * x
    ensures (r + k) * (x - y) == k * x
  {
  }

  /** 1 / a - 1 / b == 1 / c in the triangle. */
  lemma Quotient(l: nat, n: nat, k: nat, a: nat, b: nat, d: nat, x: nat, y: nat) returns (q: nat)
    requires l > 0 && 0 < k <= n && b > 0 && d > 0
    requires n * a * x == l && (n + 1) * b * y == l
    requires k * d == n * a && (n + 1 - k) * b == n * a
    ensures (n + 1) * d * q == l
  {
    var m, r := n + 1, n + 1 - k;
    Rotated(m, b, y);
    Rotated(r, b, x);
    Cancel(b, m * y, r * x);
    Apart(r, k, x, y);
    Rotated(k, d, x);
    Rotated(m, d, x - y);
    PositiveProduct(m, d);
    NonNegativeFactor(m * d, x - y);
    q := x - y;
  }

  lemma PositiveProduct(a: nat, b: nat)
    requires a > 0 && b > 0
    ensures a * b > 0
  {
  }

  lemma Cancel(b: nat, x: int, y: int)
    requires b > 0 && b * x == b * y
    ensures x == y
  {
    if x != y {
      var z := if x < y then y - x else x - y;
      assert b * z == if x < y then b * y - b * x else b * x - b * y;
      PositiveProduct(b, z);
    }
  }

  lemma NonNegativeFactor(a: int, b: int)
    requires a > 0 && a * b >= 0
    ensures b >= 0
  {
  }

  lemma {:induction false} SumBound(l: nat, n: nat, k: nat)
    requires CommonMultiple(l, n + 1) && k <= n + 1
    ensures (n + 1) * ChooseSum(n, k) <= k * l
  {
    hide CommonMultiple, Choose;
    if k > 0 {
      SumBound(l, n, k - 1);
      var q := LeibnizDivides(l, n, k - 1);
      IsPositive(l, n + 1);
      AtLeastFactor(Leibniz(n, k - 1), q, l);
      OneMoreTerm(n + 1, ChooseSum(n, k - 1), Choose(n, k - 1), k, l);
    }
  }

  lemma IsPositive(l: nat, m: nat)
    requires CommonMultiple(l, m)
    ensures l > 0
  {
  }

  lemma OneMoreTerm(a: nat, s: nat, c: nat, k: nat, l: nat)
    requires k > 0 && a * s <= (k - 1) * l && a * c <= l
    ensures a * (s + c) <= k * l
  {
    assert (k - 1) * l + l == k * l;
  }

  lemma AtLeastFactor(a: nat, q: nat, l: nat)
    requires a * q == l && l > 0
    ensures a <= l
  {
    assert q > 0;
    assert a * q >= a;
  }

  /** A common multiple of 1, ..., n + 1 is at least 2 to the n. */
  lemma MultipleBound(l: nat, n: nat)
    requires CommonMultiple(l, n + 1)
    ensures l >= Pow(2, n)
  {
    SumBound(l, n, n + 1);
    RowSum(n);
    Shrink(n + 1, Pow(2, n), l);
  }

  lemma Shrink(a: nat, b: nat, c: nat)
    requires a > 0 && a * b <= a * c
    ensures b <= c
  {
    assert a * (c - b) >= 0;
  }

  // ---------- A small common multiple ----------

  /** The greatest power of b up to m. */
  function Greatest(b: nat, m: nat): (r: nat)
    requires b >= 2 && m >= 1
    ensures 1 <= r <= m
    decreases m
  {
    if b > m then 1
    else
      Quotients(b, m);
      b * Greatest(b, m / b)
  }

  lemma Quotients(b: nat, m: nat)
    requires 2 <= b <= m
    ensures 1 <= m / b < m && forall k: nat :: k <= m / b ==> b * k <= m
  {
    forall k: nat | k <= m / b
      ensures b * k <= m
    {
      assert b * k <= b * (m / b) <= m;
    }
  }

  lemma {:induction false} PowerDivides(b: nat, e: nat, m: nat)
    requires b >= 2 && 1 <= m && Pow(b, e) <= m
    ensures Divides(Pow(b, e), Greatest(b, m))
    decreases e
  {
    if e == 0 {
      assert Times(1, Greatest(b, m)) == Greatest(b, m);
    } else {
      PowPositive(b, e - 1);
      PowerFits(b, Pow(b, e - 1), m);
      PowerDivides(b, e - 1, m / b);
      var k: nat :| Times(Pow(b, e - 1), k) == Greatest(b, m / b);
      Associate(b, Pow(b, e - 1), k);
      assert Times(Pow(b, e), k) == Greatest(b, m);
    }
  }

  lemma PowerFits(b: nat, x: nat, m: nat)
    requires b >= 2 && x >= 1 && b * x <= m
    ensures b <= m && x <= m / b && m / b >= 1
  {
    assert b * x >= b;
    assert b * x < b * (m / b + 1);
    LessFactor(b, x, m / b + 1);
  }

  lemma LessFactor(b: nat, x: nat, y: nat)
    requires b * x < b * y
    ensures x < y
  {
    assert b * (y - x) > 0;
  }

  /** The product, over the primes up to j, of their greatest powers up to m. */
  ghost function Product(j: nat, m: nat): nat
    requires m >= 1
  {
    if j < 2 then 1 else Times(Product(j - 1, m), Factor(j, m))
  }

  ghost function Factor(j: nat, m: nat): (r: nat)
    requires j >= 2 && m >= 1
    ensures 1 <= r <= m
  {
    if Prime(j) then Greatest(j, m) else 1
  }

  lemma {:induction false} ProductPositive(j: nat, m: nat)
    requires m >= 1
    ensures Product(j, m) > 0
  {
    if j >= 2 {
      ProductPositive(j - 1, m);
      assert Product(j - 1, m) * Factor(j, m) > 0;
    }
  }

  /** No prime above j divides v. */
  ghost predicate OnlyPrimesUpTo(v: nat, j: nat) {
    forall q: nat :: Prime(q) && Divides(q, v) ==> q <= j
  }

  lemma PrimeDivisor(v: nat) returns (q: nat)
    requires v >= 2
    ensures Prime(q) && Divides(q, v)
  {
    if Prime(v) {
      q := v;
      assert Times(v, 1) == v;
    } else {
      q := LeastDivisor(v);
    }
  }

  lemma ProductsDivide(a: nat, b: nat, c: nat, d: nat)
    requires Divides(a, b) && Divides(c, d)
    ensures Divides(Times(a, c), Times(b, d))
  {
    var k: nat :| Times(a, k) == b;
    var l: nat :| Times(c, l) == d;
    assert Times(Times(a, c), Times(k, l)) == Times(b, d) by {
      FourFactors(a, c, k, l);
    }
  }

  lemma FourFactors(a: nat, c: nat, k: nat, l: nat)
    ensures (a * c) * (k * l) == (a * k) * (c * l)
  {
  }

  /** All factors j of v are taken out. */
  lemma {:induction false} TakeOut(v: nat, j: nat) returns (e: nat, w: nat)
    requires v >= 1 && j >= 2
    ensures v == Times(w, Pow(j, e)) && 1 <= w <= v && Pow(j, e) <= v
    ensures !Divides(j, w) && Divides(w, v)
    decreases v
  {
    if Divides(j, v) {
      var k: nat :| Times(j, k) == v;
      Smaller(j, k, v);
      var e', w' := TakeOut(k, j);
      e, w := e' + 1, w';
      OneMoreFactor(j, k, w, Pow(j, e'), v);
    } else {
      e, w := 0, v;
      assert Times(v, 1) == v;
    }
  }

  lemma Smaller(j: nat, k: nat, v: nat)
    requires j >= 2 && j * k == v && v >= 1
    ensures 1 <= k < v
  {
  }

  lemma OneMoreFactor(j: nat, k: nat, w: nat, x: nat, v: nat)
    requires v == Times(j, k) && k == Times(w, x) && 1 <= w <= k < v && x <= k
    ensures v == Times(w, j * x) && j * x <= v && Divides(w, v)
  {
    assert j * (w * x) == w * (j * x);
    assert j * x <= j * k;
    assert Times(w, j * x) == v;
  }

  /** A number up to m whose prime divisors are at most j divides the product. */
  lemma {:induction false} Covers(v: nat, j: nat, m: nat)
    requires 1 <= v <= m && OnlyPrimesUpTo(v, j)
    ensures Divides(v, Product(j, m))
    decreases j
  {
    hide Prime, Divides, Times;
    if j < 2 {
      if v >= 2 {
        var q := PrimeDivisor(v);
        PrimeAtLeastTwo(q);
      }
      Reflexive(1);
    } else {
      var e, w := TakeOut(v, j);
      if Prime(j) {
        WithoutLargest(v, w, j);
        Covers(w, j - 1, m);
        PowerDivides(j, e, m);
        ProductsDivide(w, Product(j - 1, m), Pow(j, e), Greatest(j, m));
      } else {
        forall q: nat | Prime(q) && Divides(q, v)
          ensures q <= j - 1
        {
        }
        Covers(v, j - 1, m);
        Reflexive(1);
        ProductsDivide(v, Product(j - 1, m), 1, 1);
        TimesOne(v);
      }
    }
  }

  lemma PrimeAtLeastTwo(q: nat)
    requires Prime(q)
    ensures q >= 2
  {
  }

  lemma Reflexive(n: nat)
    ensures Divides(n, n)
  {
    assert Times(n, 1) == n;
  }

  lemma TimesOne(v: nat)
    ensures Times(v, 1) == v
  {
  }

  lemma WithoutLargest(v: nat, w: nat, j: nat)
    requires OnlyPrimesUpTo(v, j) && Divides(w, v) && !Divides(j, w) && j >= 1
    ensures OnlyPrimesUpTo(w, j - 1)
  {
    hide Prime, Divides;
    forall q: nat | Prime(q) && Divides(q, w)
      ensures q <= j - 1
    {
      Transitive(q, w, v);
    }
  }

  lemma EvenNotPrime(i: nat)
    requires i >= 2
    ensures !Prime(2 * i)
  {
    SmallPrimes(2 * i);
  }

  /** There are at most i + 1 primes up to 2 i + 1. */
  lemma {:induction false} ProductBound(i: nat, m: nat)
    requires m >= 1 && i >= 1
    ensures Product(2 * i + 1, m) <= Pow(m, i + 1)
  {
    hide Prime, Times;
    if i == 1 {
      assert Product(1, m) == 1;
      TwoFactors(1, Factor(2, m), Factor(3, m), m);
      assert Pow(m, 2) == m * Pow(m, 1) && Pow(m, 1) == m * Pow(m, 0);
    } else {
      ProductBound(i - 1, m);
      EvenNotPrime(i);
      OneFactor(Product(2 * i - 1, m), Factor(2 * i + 1, m), m, Pow(m, i));
    }
  }

  lemma TwoFactors(a: nat, b: nat, c: nat, m: nat)
    requires a == 1 && b <= m && c <= m
    ensures Times(Times(a, b), c) <= m * (m * 1)
  {
    MonotoneProduct(b, m, c, m);
  }

  lemma OneFactor(a: nat, c: nat, m: nat, x: nat)
    requires a <= x && c <= m
    ensures Times(Times(a, 1), c) <= m * x
  {
    MonotoneProduct(a, x, c, m);
  }

  // ---------- The gap ----------

  lemma {:induction false} LessThanPower(p: nat)
    requires p >= 3
    ensures p < Pow(2, p - 1)
  {
    if p == 3 {
      assert Pow(2, 2) == 2 * Pow(2, 1) && Pow(2, 1) == 2 * Pow(2, 0);
    } else {
      LessThanPower(p - 1);
    }
  }

  lemma {:induction false} PowLess(a: nat, b: nat, n: nat)
    requires a < b && n >= 1
    ensures Pow(a, n) < Pow(b, n)
  {
    if n > 1 {
      PowLess(a, b, n - 1);
      PowPositive(b, n - 1);
      LessProduct(a, b, Pow(a, n - 1), Pow(b, n - 1));
    } else {
      assert Pow(a, 1) == a * Pow(a, 0) && Pow(b, 1) == b * Pow(b, 0);
    }
  }

  lemma LessProduct(a: nat, b: nat, c: nat, d: nat)
    requires a < b && c < d
    ensures a * c < b * d
  {
    assert a * c <= a * d < b * d;
  }

  /** p * p to the power (p + 1) / 2 is less than 2 to the p * p - 1. */
  lemma PowersApart(p: nat, h: nat)
    requires p >= 3 && p + 1 == 2 * h
    ensures Pow(p * p, h) < Pow(2, p * p - 1)
  {
    assert Pow(p, 2) == p * Pow(p, 1) && Pow(p, 1) == p * Pow(p, 0);
    PowOfPow(p, 2, h);
    LessThanPower(p);
    PowLess(p, Pow(2, p - 1), p + 1);
    PowOfPow(2, p - 1, p + 1);
    assert (p - 1) * (p + 1) == p * p - 1;
  }

  lemma NotAllUpTo(p: nat)
    requires p >= 3 && p % 2 == 1
    ensures exists q :: p < q <= p * p && Prime(q)
  {
    hide Prime, Divides, Times, Pow;
    if forall q :: p < q <= p * p ==> !Prime(q) {
      var m, l, i := p * p, Product(p, p * p), (p - 1) / 2;
      AtLeastNine(p);
      ProductPositive(p, m);
      forall v | 1 <= v <= m
        ensures Divides(v, l)
      {
        forall q: nat | Prime(q) && Divides(q, v)
          ensures q <= p
        {
          DivisorBound(q, v);
        }
        Covers(v, p, m);
      }
      MultipleBound(l, m - 1);
      ProductBound(i, m);
      PowersApart(p, i + 1);
    }
  }

  lemma AtLeastNine(p: nat)
    requires p >= 3
    ensures p * p >= 9
  {
  }

  lemma DivisorBound(q: nat, v: nat)
    requires Divides(q, v) && v >= 1
    ensures q <= v
  {
    var k: nat :| Times(q, k) == v;
    AtLeastFactor(q, k, v);
  }

  /** Between a prime and its square there is another prime. */
  lemma PrimeBetween(p: nat) returns (q: nat)
    requires Prime(p)
    ensures p < q < p * p && Prime(q)
  {
    hide Prime, Divides;
    PrimeAtLeastTwo(p);
    SmallPrimes(p);
    if p == 2 {
      ThreeIsPrime();
      q := 3;
    } else {
      NotAllUpTo(p);
      q :| p < q <= p * p && Prime(q);
      SquareNotPrime(p);
    }
  }

  lemma SquareNotPrime(p: nat)
    requires p >= 2
    ensures !Prime(p * p)
  {
    assert Times(p, p) == p * p;
    assert Divides(p, p * p) && p < p * p;
  }
}
