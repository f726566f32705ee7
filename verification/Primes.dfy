/** Divisors and primes. */
module Primes {
  ghost predicate Prime(n: nat) {
    n >= 2 && forall d :: 2 <= d < n ==> !Divides(d, n)
  }

  ghost predicate Divides(d: nat, n: nat) {
    exists k: nat :: Times(d, k) == n
  }

  function Times(d: nat, k: nat): nat {
    d * k
  }

  lemma Associate(a: nat, b: nat, c: nat)
    ensures Times(Times(a, b), c) == Times(a, Times(b, c))
  {
  }

  lemma Transitive(a: nat, b: nat, c: nat)
    requires Divides(a, b) && Divides(b, c)
    ensures Divides(a, c)
  {
    hide Times;
    var k: nat :| Times(a, k) == b;
    var l: nat :| Times(b, l) == c;
    Associate(a, k, l);
  }

  lemma Cofactor(d: nat, n: nat) returns (k: nat)
    requires Divides(d, n) && 2 <= d < n
    ensures Times(d, k) == n && Divides(k, n) && 2 <= k < n
  {
    k :| Times(d, k) == n;
    assert Times(k, d) == n;
    Factors(d, k, n);
  }

  lemma Factors(d: nat, k: nat, n: nat)
    requires d * k == n && 2 <= d < n
    ensures 2 <= k < n
  {
    assert d * k >= 2 * k;
  }

  lemma Square(d: nat, k: nat, n: nat)
    requires Times(d, k) == n && d <= k
    ensures d * d <= n
  {
  }

  /** A number that is not prime has a least divisor, which is prime and no greater than its square root. */
  lemma LeastDivisor(n: nat) returns (d: nat)
    requires n >= 2 && !Prime(n)
    ensures 2 <= d < n && Divides(d, n) && Prime(d) && d * d <= n
  {
    hide Times, Divides;
    d := 2;
    while !Divides(d, n)
      invariant 2 <= d < n && forall e :: 2 <= e < d ==> !Divides(e, n)
      decreases n - d
    {
      d := d + 1;
    }
    forall e | 2 <= e < d
      ensures !Divides(e, d)
    {
      if Divides(e, d) {
        Transitive(e, d, n);
      }
    }
    var k := Cofactor(d, n);
    Square(d, k, n);
  }

  lemma ThreeIsPrime()
    ensures Prime(3)
  {
    assert forall k: nat :: Times(2, k) != 3;
  }

  lemma SmallPrimes(n: nat)
    ensures n < 2 ==> !Prime(n)
    ensures n % 2 == 0 ==> (Prime(n) <==> n == 2)
  {
    if n % 2 == 0 && n > 2 {
      assert Times(2, n / 2) == n;
      assert Divides(2, n);
    }
  }
}
