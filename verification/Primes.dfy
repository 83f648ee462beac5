/** The prime searches of utility/PrimeNumber.cpp over any set of correct tables. */
module Primes {
  import opened NumberTheory

  /** The constant tables: all primes below `firstNonSmall`, the wheel modulus with the
      residues coprime to it, and the gaps between such numbers from `firstNonSmall` on.
      The first `skip` small primes are the ones the wheel avoids. */
  datatype Tables = Tables(smallPrimes: seq<nat>, firstNonSmall: nat, modulus: nat,
                           residues: seq<nat>, increments: seq<nat>, skip: nat)

  predicate Ascending(s: seq<nat>) {
    forall i, j | 0 <= i < j < |s| :: s[i] < s[j]
  }

  /** On the wheel: divisible by none of the first small primes. */
  predicate OnWheel(t: Tables, x: nat)
    requires t.skip <= |t.smallPrimes|
  {
    forall i | 0 <= i < t.skip :: !Divides(t.smallPrimes[i], x)
  }

  function Sum(s: seq<nat>): nat {
    if s == [] then 0 else Sum(s[..|s| - 1]) + s[|s| - 1]
  }

  ghost predicate GoodSmallPrimes(t: Tables) {
    && 0 < t.skip <= |t.smallPrimes|
    && Ascending(t.smallPrimes)
    && (forall p: nat :: p in t.smallPrimes <==> IsPrime(p) && p < t.firstNonSmall)
    && IsPrime(t.firstNonSmall)
  }

  ghost predicate GoodWheel(t: Tables)
    requires t.skip <= |t.smallPrimes|
  {
    && t.modulus > 1
    && (forall i | 0 <= i < t.skip :: t.smallPrimes[i] > 1 && Divides(t.smallPrimes[i], t.modulus))
    && Ascending(t.residues)
    && (forall r: nat :: r in t.residues <==> r < t.modulus && OnWheel(t, r))
  }

  /** The number reached from `firstNonSmall` after i increments. */
  function Spoke(t: Tables, i: nat): nat
    requires i <= |t.increments|
  {
    t.firstNonSmall + Sum(t.increments[..i])
  }

  predicate OffWheelBetween(t: Tables, a: nat, b: nat)
    requires t.skip <= |t.smallPrimes|
  {
    forall x | a < x < b :: !OnWheel(t, x)
  }

  ghost predicate GoodIncrements(t: Tables)
    requires t.skip <= |t.smallPrimes|
  {
    && |t.increments| > 0
    && (forall i | 0 <= i < |t.increments| :: t.increments[i] > 0)
    && (forall i | 0 <= i < |t.increments| ::
          OnWheel(t, Spoke(t, i)) && OffWheelBetween(t, Spoke(t, i), Spoke(t, i) + t.increments[i]))
    && Sum(t.increments) == t.modulus
  }

  ghost predicate GoodTables(t: Tables) {
    GoodSmallPrimes(t) && GoodWheel(t) && GoodIncrements(t)
  }

  // ---- the wheel ------------------------------------------------------------------------

  /** The wheel turns: a full turn does not change what is on it. */
  lemma WheelTurns(t: Tables, x: nat, q: nat)
    requires t.skip <= |t.smallPrimes| && GoodWheel(t)
    ensures OnWheel(t, x + q * t.modulus) <==> OnWheel(t, x)
  {
    forall i | 0 <= i < t.skip
      ensures Divides(t.smallPrimes[i], x + q * t.modulus) <==> Divides(t.smallPrimes[i], x)
    {
      var w := t.smallPrimes[i];
      var c := DividesMeansProduct(w, t.modulus);
      assert q * t.modulus == w * (c * q) by {
        Associate(w, c, q);
      }
      ModOfMultiple(x, w, c * q);
    }
  }

  /** Every prime that is not one of the wheel's own primes is on the wheel. */
  lemma LargePrimesAreOnWheel(t: Tables, p: nat)
    requires GoodSmallPrimes(t) && IsPrime(p) && p > t.smallPrimes[t.skip - 1]
    ensures OnWheel(t, p)
  {
    forall i | 0 <= i < t.skip
      ensures !Divides(t.smallPrimes[i], p)
    {
      assert t.smallPrimes[i] in t.smallPrimes;
      assert t.smallPrimes[i] <= t.smallPrimes[t.skip - 1];
    }
  }

  /** The candidate numbers of the outer search. */
  function Candidate(t: Tables, k: nat, idx: nat): nat
    requires idx < |t.residues|
  {
    k * t.modulus + t.residues[idx]
  }

  lemma CandidatesAreOnWheel(t: Tables, k: nat, idx: nat)
    requires t.skip <= |t.smallPrimes| && GoodWheel(t) && idx < |t.residues|
    ensures OnWheel(t, Candidate(t, k, idx)) && t.residues[idx] < t.modulus
  {
    assert t.residues[idx] in t.residues;
    WheelTurns(t, t.residues[idx], k);
  }

  /** The residue list starts at or below 1 and ends at modulus - 1. */
  lemma ResidueEnds(t: Tables)
    requires t.skip <= |t.smallPrimes| && GoodWheel(t)
    ensures |t.residues| > 0
    ensures t.residues[0] <= 1 && t.residues[|t.residues| - 1] == t.modulus - 1
  {
    assert OnWheel(t, 1);
    assert 1 in t.residues;
    forall i | 0 <= i < t.skip
      ensures !Divides(t.smallPrimes[i], t.modulus - 1)
    {
      if Divides(t.smallPrimes[i], t.modulus - 1) {
        var w := t.smallPrimes[i];
        var a := DividesMeansProduct(w, t.modulus);
        var b := DividesMeansProduct(w, t.modulus - 1);
        if b < a {
          ProductsApart(w, b, a);
        } else if a < b {
          ProductsApart(w, a, b);
        }
      }
    }
    assert t.modulus - 1 in t.residues;
    var last := |t.residues| - 1;
    assert t.residues[last] in t.residues;
  }

  lemma NotListed(s: seq<nat>, idx: nat, y: nat)
    requires Ascending(s) && idx < |s| && s[idx] < y
    requires idx + 1 < |s| ==> y < s[idx + 1]
    ensures y !in s
  {
    forall j | 0 <= j < |s|
      ensures s[j] != y
    {
      assert j < idx ==> s[j] < s[idx];
      assert idx + 1 < j ==> s[idx + 1] < s[j];
    }
  }

  lemma NotBelowFirst(s: seq<nat>, y: nat)
    requires Ascending(s) && |s| > 0 && y < s[0]
    ensures y !in s
  {
    forall j | 0 <= j < |s|
      ensures s[j] != y
    {
      assert 0 < j ==> s[0] < s[j];
    }
  }

  /** The candidate after (k, idx). */
  function NextCandidate(t: Tables, k: nat, idx: nat): nat
    requires idx < |t.residues|
  {
    if idx + 1 < |t.residues| then Candidate(t, k, idx + 1) else Candidate(t, k + 1, 0)
  }

  /** Between neighbouring residues, and across the end of a turn, nothing is on the wheel. */
  lemma NothingBetween(t: Tables, k: nat, idx: nat)
    requires t.skip <= |t.smallPrimes| && GoodWheel(t) && idx < |t.residues|
    ensures Candidate(t, k, idx) < NextCandidate(t, k, idx)
    ensures OffWheelBetween(t, Candidate(t, k, idx), NextCandidate(t, k, idx))
  {
    ResidueEnds(t);
    assert t.residues[idx] in t.residues;
    assert (k + 1) * t.modulus == k * t.modulus + t.modulus;
    assert idx + 1 < |t.residues| ==> t.residues[idx + 1] in t.residues;
    forall x | Candidate(t, k, idx) < x < NextCandidate(t, k, idx)
      ensures !OnWheel(t, x)
    {
      var y := x - k * t.modulus;
      if y < t.modulus {
        NotListed(t.residues, idx, y);
        WheelTurns(t, y, k);
      } else {
        NotBelowFirst(t.residues, y - t.modulus);
        WheelTurns(t, y - t.modulus, k + 1);
      }
    }
  }

  // ---- trial division ------------------------------------------------------------------

  lemma ExactQuotient(n: nat, d: nat)
    requires d > 0
    ensures n == n / d * d <==> Divides(d, n)
    ensures n / d < d ==> n < d * d
    ensures n / d >= d ==> n >= d
  {
    var q, r := n / d, n % d;
    DivisionIs(n, d, q, r);
    if q < d {
      MulMonotone(d, q + 1, d);
    } else {
      MulMonotone(d, 1, q);
    }
  }

  lemma DivisionIs(n: nat, d: nat, q: nat, r: nat)
    requires d > 0 && q == n / d && r == n % d
    ensures n == d * q + r && r < d && d * (q + 1) == d * q + d
    ensures n == q * d <==> Divides(d, n)
  {
  }

  lemma SmallPrimesTried(t: Tables, n: nat, i: nat)
    requires GoodSmallPrimes(t) && i <= |t.smallPrimes|
    requires forall j | 0 <= j < i :: !Divides(t.smallPrimes[j], n)
    ensures NoPrimeFactorBelow(n, if i < |t.smallPrimes| then t.smallPrimes[i] else t.firstNonSmall)
  {
    var bound := if i < |t.smallPrimes| then t.smallPrimes[i] else t.firstNonSmall;
    forall p: nat | IsPrime(p) && p < bound
      ensures !Divides(p, n)
    {
      assert i < |t.smallPrimes| ==> t.smallPrimes[i] in t.smallPrimes;
      assert p in t.smallPrimes;
      var j :| 0 <= j < |t.smallPrimes| && t.smallPrimes[j] == p;
    }
  }

  /** The potential prime after i increments of the given turn of the wheel. */
  function Potential(t: Tables, turns: nat, i: nat): nat
    requires i <= |t.increments|
  {
    Spoke(t, i) + turns * t.modulus
  }

  /** One increment leads from a number on the wheel to the next one. */
  lemma PotentialSteps(t: Tables, turns: nat, i: nat)
    requires GoodTables(t) && i < |t.increments|
    ensures OnWheel(t, Potential(t, turns, i))
    ensures OffWheelBetween(t, Potential(t, turns, i), Potential(t, turns, i) + t.increments[i])
    ensures Potential(t, turns, i + 1) == Potential(t, turns, i) + t.increments[i]
  {
    hide Spoke, OnWheel, GoodTables, GoodWheel, GoodSmallPrimes;
    SpokeSteps(t, i);
    var spoke, base: nat := Spoke(t, i), turns * t.modulus;
    WheelTurnsBy(t, spoke, turns, base);
    forall x | spoke + base < x < spoke + base + t.increments[i]
      ensures !OnWheel(t, x)
    {
      WheelTurnsBy(t, x - base, turns, base);
    }
  }

  lemma SpokeSteps(t: Tables, i: nat)
    requires GoodTables(t) && i < |t.increments|
    ensures t.skip <= |t.smallPrimes| && OnWheel(t, Spoke(t, i))
    ensures OffWheelBetween(t, Spoke(t, i), Spoke(t, i) + t.increments[i])
    ensures Spoke(t, i + 1) == Spoke(t, i) + t.increments[i]
  {
    assert t.increments[..i + 1][..i] == t.increments[..i];
  }

  lemma WheelTurnsBy(t: Tables, x: nat, turns: nat, base: nat)
    requires GoodTables(t) && base == turns * t.modulus
    ensures OnWheel(t, x + base) <==> OnWheel(t, x)
  {
    WheelTurns(t, x, turns);
  }

  /** After a full turn the next one begins. */
  lemma PotentialTurns(t: Tables, turns: nat)
    requires GoodTables(t)
    ensures Potential(t, 0, 0) == t.firstNonSmall
    ensures Potential(t, turns, |t.increments|) == Potential(t, turns + 1, 0)
  {
    assert t.increments[..|t.increments|] == t.increments;
    assert (turns + 1) * t.modulus == turns * t.modulus + t.modulus;
  }

  lemma {:induction false} SpokeAtOrBelow(t: Tables, y: nat, k: nat) returns (i: nat)
    requires GoodTables(t) && k <= |t.increments| && t.firstNonSmall <= y < Spoke(t, k)
    ensures i < k && Spoke(t, i) <= y < Spoke(t, i) + t.increments[i]
  {
    assert k > 0;
    assert t.increments[..k][..k - 1] == t.increments[..k - 1];
    if Spoke(t, k - 1) <= y {
      i := k - 1;
    } else {
      i := SpokeAtOrBelow(t, y, k - 1);
    }
  }

  /** The potential primes are exactly the numbers on the wheel from `firstNonSmall` on. */
  lemma PotentialPrimesAreTheWheel(t: Tables, x: nat)
    requires GoodTables(t) && x >= t.firstNonSmall
    ensures OnWheel(t, x) <==> exists turns: nat, i: nat :: i < |t.increments| && Potential(t, turns, i) == x
  {
    hide Potential, OnWheel;
    if OnWheel(t, x) {
      var turns, i := PotentialOf(t, x);
    } else {
      forall turns: nat, i: nat | i < |t.increments|
        ensures Potential(t, turns, i) != x
      {
        PotentialSteps(t, turns, i);
      }
    }
  }

  lemma PotentialOf(t: Tables, x: nat) returns (turns: nat, i: nat)
    requires GoodTables(t) && x >= t.firstNonSmall && OnWheel(t, x)
    ensures i < |t.increments| && Potential(t, turns, i) == x
  {
    assert t.modulus > 0 && t.firstNonSmall + t.modulus == Spoke(t, |t.increments|) by {
      assert t.increments[..|t.increments|] == t.increments;
    }
    hide GoodTables, GoodWheel, GoodSmallPrimes, GoodIncrements, Spoke, OnWheel;
    var rest, base;
    turns, rest, base := Remainder(x - t.firstNonSmall, t.modulus);
    i := SpokeAtOrBelow(t, t.firstNonSmall + rest, |t.increments|);
    PotentialSteps(t, turns, i);
    assert Potential(t, turns, i) == Spoke(t, i) + base;
  }

  lemma Remainder(x: nat, m: nat) returns (q: nat, rest: nat, base: nat)
    requires m > 0
    ensures rest < m && base == q * m && x == base + rest
  {
    q, rest := x / m, x % m;
    base := q * m;
  }

  /** Trying one potential prime rules out all primes up to the next one. */
  lemma SpokeTried(t: Tables, n: nat, turns: nat, i: nat)
    requires GoodTables(t) && i < |t.increments|
    requires NoPrimeFactorBelow(n, Potential(t, turns, i)) && !Divides(Potential(t, turns, i), n)
    ensures NoPrimeFactorBelow(n, Potential(t, turns, i + 1))
  {
    hide OnWheel, IsPrime, Divides, GoodWheel, GoodSmallPrimes, GoodIncrements, Potential;
    BelowFirstNonSmall(t);
    PotentialIsLarge(t, turns, i);
    PotentialSteps(t, turns, i);
    forall p: nat | IsPrime(p) && p < Potential(t, turns, i + 1)
      ensures !Divides(p, n)
    {
      if p > Potential(t, turns, i) {
        LargePrimesAreOnWheel(t, p);
      }
    }
  }

  lemma PotentialIsLarge(t: Tables, turns: nat, i: nat)
    requires i <= |t.increments|
    ensures Potential(t, turns, i) >= t.firstNonSmall
  {
    assert turns * t.modulus >= 0;
  }

  lemma BelowFirstNonSmall(t: Tables)
    requires GoodSmallPrimes(t)
    ensures 0 < t.skip <= |t.smallPrimes|
    ensures t.smallPrimes[t.skip - 1] <= t.smallPrimes[|t.smallPrimes| - 1] < t.firstNonSmall
  {
    assert t.smallPrimes[|t.smallPrimes| - 1] in t.smallPrimes;
  }

  // One trial: `prime` when the divisor has passed the square root, `composite` when it divides.
  method TryDivisor(number: nat, d: nat) returns (prime: bool, composite: bool)
    requires d >= 2 && number >= 2 && NoPrimeFactorBelow(number, d)
    ensures prime ==> IsPrime(number)
    ensures composite ==> !IsPrime(number)
    ensures !prime && !composite ==> !Divides(d, number) && d <= number
  {
    var quotient := number / d;
    ExactQuotient(number, d);
    prime := quotient < d;
    composite := !prime && number == quotient * d;
    if prime {
      NoSmallFactorMeansPrime(number, d);
    } else if composite {
      FactorFound(number, d);
    }
  }

  method TrialDivision(t: Tables, number: nat) returns (prime: bool)
    requires GoodTables(t) && number > t.smallPrimes[|t.smallPrimes| - 1] && OnWheel(t, number)
    ensures prime <==> IsPrime(number)
  {
    BelowFirstNonSmall(t);
    // a number on the wheel needs no trial with the primes of the wheel
    for i := t.skip to |t.smallPrimes|
      invariant forall j | 0 <= j < i :: !Divides(t.smallPrimes[j], number)
    {
      assert t.smallPrimes[i] in t.smallPrimes;
      SmallPrimesTried(t, number, i);
      var isPrime, composite := TryDivisor(number, t.smallPrimes[i]);
      if isPrime || composite {
        return isPrime;
      }
    }
    SmallPrimesTried(t, number, |t.smallPrimes|);
    prime := TryPotentialPrimes(t, number);
  }

  // Potential primes from `firstNonSmall` on, turn after turn of the wheel.
  method TryPotentialPrimes(t: Tables, number: nat) returns (prime: bool)
    requires GoodTables(t) && number >= 2 && NoPrimeFactorBelow(number, t.firstNonSmall)
    ensures prime <==> IsPrime(number)
  {
    hide IsPrime, Divides, NoPrimeFactorBelow, GoodWheel, GoodSmallPrimes, OnWheel, OffWheelBetween, Potential;
    var potential: nat := t.firstNonSmall;
    FirstNonSmallIsLarge(t);
    ghost var turns: nat := 0;
    PotentialTurns(t, 0);
    while true
      invariant potential == Potential(t, turns, 0)
      invariant NoPrimeFactorBelow(number, potential)
      decreases if potential <= number then number - potential + 1 else 0
    {
      var decided;
      decided, prime, potential := TryOneTurn(t, number, potential, turns);
      if decided {
        return;
      }
      PotentialTurns(t, turns);
      turns := turns + 1;
    }
  }

  // The inner loop: one turn of the wheel.
  method TryOneTurn(t: Tables, number: nat, first: nat, ghost turns: nat)
    returns (decided: bool, prime: bool, potential: nat)
    requires GoodTables(t) && number >= 2 && first == Potential(t, turns, 0) && NoPrimeFactorBelow(number, first)
    ensures decided ==> (prime <==> IsPrime(number))
    ensures !decided ==> first <= number && first < potential && NoPrimeFactorBelow(number, potential)
    ensures !decided ==> potential == Potential(t, turns, |t.increments|)
  {
    hide IsPrime, Divides, NoPrimeFactorBelow, GoodWheel, GoodSmallPrimes, OnWheel, OffWheelBetween, Potential;
    potential := first;
    FirstNonSmallIsLarge(t);
    for i := 0 to |t.increments|
      invariant potential == Potential(t, turns, i)
      invariant i > 0 ==> first <= number && first < potential
      invariant NoPrimeFactorBelow(number, potential)
    {
      PotentialIsLarge(t, turns, i);
      var isPrime, composite := TryDivisor(number, potential);
      if isPrime || composite {
        return true, isPrime, potential;
      }
      SpokeTried(t, number, turns, i);
      PotentialSteps(t, turns, i);
      potential := potential + t.increments[i];
    }
    decided, prime := false, false;
  }

  lemma FirstNonSmallIsLarge(t: Tables)
    requires GoodSmallPrimes(t)
    ensures t.firstNonSmall >= 2 && IsPrime(t.firstNonSmall)
  {
  }

  lemma FactorFound(n: nat, d: nat)
    requires d >= 2 && Divides(d, n) && n / d >= d
    ensures !IsPrime(n)
  {
    MulMonotone(d, d, n / d);
    ProperFactorMeansComposite(n, d);
  }

  // ---- the searches -----------------------------------------------------------------------

  // std::lower_bound: the first index whose entry is not below x
  method LowerBound(s: seq<nat>, x: nat) returns (r: nat)
    requires Ascending(s)
    ensures r <= |s|
    ensures forall i | 0 <= i < r :: s[i] < x
    ensures forall i | r <= i < |s| :: x <= s[i]
  {
    var lo, hi := 0, |s|;
    while lo < hi
      invariant 0 <= lo <= hi <= |s|
      invariant forall i | 0 <= i < lo :: s[i] < x
      invariant forall i | hi <= i < |s| :: x <= s[i]
    {
      var mid := (lo + hi) / 2;
      if s[mid] < x {
        lo := mid + 1;
      } else {
        hi := mid;
      }
    }
    r := lo;
  }

  // std::upper_bound: the first index whose entry is above x
  method UpperBound(s: seq<nat>, x: nat) returns (r: nat)
    requires Ascending(s)
    ensures r <= |s|
    ensures forall i | 0 <= i < r :: s[i] <= x
    ensures forall i | r <= i < |s| :: x < s[i]
  {
    r := LowerBound(s, x + 1);
  }

  // The turn of the wheel a number falls in, and its remainder there.
  method Turn(t: Tables, n: nat) returns (k: nat, rest: nat)
    requires t.modulus > 1
    ensures k == n / t.modulus && n == k * t.modulus + rest && rest < t.modulus
  {
    k := n / t.modulus;
    rest := n - k * t.modulus;
  }

  ghost predicate NoPrimeIn(lo: nat, hi: nat) {
    forall p: nat | lo <= p < hi :: !IsPrime(p)
  }

  lemma NoPrimeJoined(a: nat, b: nat, c: nat)
    requires NoPrimeIn(a, b) && !IsPrime(b) && NoPrimeIn(b + 1, c)
    ensures NoPrimeIn(a, c)
  {
  }

  lemma NoPrimeBound(a: nat, b: nat, p: nat)
    requires NoPrimeIn(a, b) && IsPrime(p) && a <= p
    ensures b <= p
  {
  }

  /** Moving to the next candidate skips no prime. */
  lemma NoPrimeSkipped(t: Tables, k: nat, idx: nat)
    requires GoodSmallPrimes(t) && GoodWheel(t) && idx < |t.residues|
    requires Candidate(t, k, idx) >= t.smallPrimes[t.skip - 1]
    ensures Candidate(t, k, idx) < NextCandidate(t, k, idx)
    ensures NoPrimeIn(Candidate(t, k, idx) + 1, NextCandidate(t, k, idx))
  {
    NothingBetween(t, k, idx);
    forall p: nat | Candidate(t, k, idx) < p < NextCandidate(t, k, idx)
      ensures !IsPrime(p)
    {
      if IsPrime(p) {
        LargePrimesAreOnWheel(t, p);
      }
    }
  }

  /** Neither does starting from the first residue at or above the remainder. */
  lemma NoPrimeBeforeFirstCandidate(t: Tables, n: nat, k: nat, rest: nat, idx: nat)
    requires GoodSmallPrimes(t) && GoodWheel(t) && idx < |t.residues|
    requires n > t.smallPrimes[t.skip - 1] && n == k * t.modulus + rest
    requires forall i | 0 <= i < idx :: t.residues[i] < rest
    requires rest <= t.residues[idx]
    ensures n <= Candidate(t, k, idx) && NoPrimeIn(n, Candidate(t, k, idx))
  {
    CandidatesAreOnWheel(t, k, idx);
    forall p: nat | n <= p < Candidate(t, k, idx)
      ensures !IsPrime(p)
    {
      var y: nat := p - k * t.modulus;
      if idx == 0 {
        NotBelowFirst(t.residues, y);
      } else {
        NotListed(t.residues, idx - 1, y);
      }
      WheelTurns(t, y, k);
      if IsPrime(p) {
        LargePrimesAreOnWheel(t, p);
      }
    }
  }

  /** The least prime at or above `n`. The candidates tried never pass the answer, so they all
      fit a machine word when the answer does. */
  method GetNextPrimeNumber(t: Tables, n: nat) returns (r: nat, ghost tried: seq<nat>)
    requires GoodTables(t)
    ensures IsPrime(r) && r >= n && NoPrimeIn(n, r)
    ensures forall p: nat | n <= p < r :: !IsPrime(p)
    ensures forall i | 0 <= i < |tried| :: n <= tried[i] <= r
  {
    var last := |t.smallPrimes| - 1;
    BelowFirstNonSmall(t);
    if n <= t.smallPrimes[last] {
      var i := LowerBound(t.smallPrimes, n);
      r, tried := t.smallPrimes[i], [];
      SmallAnswer(t, n, i);
      return;
    }
    ghost var bound := PrimeAtOrAbove(n);
    ResidueEnds(t);
    var k, rest := Turn(t, n);
    var idx := LowerBound(t.residues, rest);
    NoPrimeBeforeFirstCandidate(t, n, k, rest, idx);
    r, tried := SearchUpward(t, n, k, idx, bound);
  }

  // The outer search loop of get_next_prime_number.
  method SearchUpward(t: Tables, n: nat, k0: nat, idx0: nat, ghost bound: nat) returns (r: nat, ghost tried: seq<nat>)
    requires GoodTables(t) && n > t.smallPrimes[|t.smallPrimes| - 1] && idx0 < |t.residues|
    requires n <= Candidate(t, k0, idx0) && NoPrimeIn(n, Candidate(t, k0, idx0))
    requires IsPrime(bound) && n <= bound
    ensures IsPrime(r) && r >= n && NoPrimeIn(n, r)
    ensures forall i | 0 <= i < |tried| :: n <= tried[i] <= r
  {
    BelowFirstNonSmall(t);
    assert GoodSmallPrimes(t) && GoodWheel(t);
    hide Candidate, IsPrime, NoPrimeIn, OnWheel, GoodTables, GoodSmallPrimes, GoodWheel;
    var k: nat, idx: nat := k0, idx0;
    var number := Candidate(t, k, idx);
    NoPrimeBound(n, number, bound);
    tried := [number];
    while true
      invariant idx < |t.residues| && number == Candidate(t, k, idx)
      invariant n <= number <= bound && NoPrimeIn(n, number)
      invariant forall i | 0 <= i < |tried| :: n <= tried[i] <= number
      decreases bound - number
    {
      CandidatesAreOnWheel(t, k, idx);
      var prime := TrialDivision(t, number);
      if prime {
        return number, tried;
      }
      NoPrimeSkipped(t, k, idx);
      ghost var was := number;
      idx := idx + 1;
      if idx == |t.residues| {
        k := k + 1;
        idx := 0;
      }
      number := Candidate(t, k, idx);
      NoPrimeJoined(n, was, number);
      NoPrimeBound(n, number, bound);
      tried := tried + [number];
    }
  }

  lemma SmallAnswer(t: Tables, n: nat, i: nat)
    requires GoodSmallPrimes(t) && i < |t.smallPrimes|
    requires forall j | 0 <= j < i :: t.smallPrimes[j] < n
    requires n <= t.smallPrimes[i]
    ensures IsPrime(t.smallPrimes[i]) && NoPrimeIn(n, t.smallPrimes[i])
  {
    assert t.smallPrimes[i] in t.smallPrimes;
    forall p: nat | n <= p < t.smallPrimes[i]
      ensures !IsPrime(p)
    {
      assert p in t.smallPrimes <==> IsPrime(p) && p < t.firstNonSmall;
    }
  }

  /** The greatest prime at or below `n`, or 0 if there is none. */
  method GetPreviousPrimeNumber(t: Tables, n: nat) returns (r: nat)
    requires GoodTables(t)
    ensures n < 2 <==> r == 0
    ensures n >= 2 ==> IsPrime(r) && r <= n && NoPrimeIn(r + 1, n + 1)
    ensures n >= 2 ==> forall p: nat | r < p <= n :: !IsPrime(p)
  {
    FirstPrimeIsTwo(t);
    if n < t.smallPrimes[0] {
      return 0;
    }
    BelowFirstNonSmall(t);
    if n < t.firstNonSmall {
      var i := UpperBound(t.smallPrimes, n);
      SmallAnswerBelow(t, n, i);
      return t.smallPrimes[i - 1];
    }
    var k, idx := LastCandidateAtOrBelow(t, n);
    r := SearchDownward(t, n, k, idx);
  }

  /** A candidate that precedes the first non-small prime precedes it directly or is below it:
      if nothing on the wheel lies between a candidate and x, and firstNonSmall < x, the
      candidate is at least firstNonSmall. */
  lemma NotBelowFirstNonSmall(t: Tables, c: nat, x: nat)
    requires GoodSmallPrimes(t) && OffWheelBetween(t, c, x) && t.firstNonSmall < x
    ensures t.firstNonSmall <= c
  {
    BelowFirstNonSmall(t);
    LargePrimesAreOnWheel(t, t.firstNonSmall);
  }

  lemma OffWheelMeansNoPrime(t: Tables, c: nat, x: nat)
    requires GoodSmallPrimes(t) && OffWheelBetween(t, c, x) && t.firstNonSmall <= c
    ensures NoPrimeIn(c + 1, x)
  {
    BelowFirstNonSmall(t);
    forall p: nat | c < p < x
      ensures !IsPrime(p)
    {
      if IsPrime(p) {
        LargePrimesAreOnWheel(t, p);
      }
    }
  }

  lemma PositiveTurn(n: nat, k: nat, m: nat)
    requires n > 0 && n == k * m
    ensures k > 0 && n == (k - 1) * m + m
  {
  }

  method LastCandidateAtOrBelow(t: Tables, n: nat) returns (k: nat, idx: nat)
    requires GoodTables(t) && n >= t.firstNonSmall
    ensures idx < |t.residues| && t.firstNonSmall <= Candidate(t, k, idx) <= n
    ensures NoPrimeIn(Candidate(t, k, idx) + 1, n + 1)
  {
    FirstNonSmallIsLarge(t);
    ResidueEnds(t);
    assert t.modulus > 1 && Ascending(t.residues);
    hide GoodWheel, GoodSmallPrimes, GoodIncrements, OnWheel, NoPrimeIn, IsPrime;
    var rest;
    k, rest := Turn(t, n);
    var i := UpperBound(t.residues, rest);
    hide Candidate, NextCandidate;
    if i > 0 {
      idx := i - 1;
      BracketedInTurn(t, n, k, rest, idx);
    } else {
      PositiveTurn(n, k, t.modulus);
      idx := |t.residues| - 1;
      k := k - 1;
      BracketedAcrossTurns(t, n, k, rest);
    }
    NothingBetween(t, k, idx);
    CandidateBelow(t, k, idx, n + 1);
  }

  lemma BracketedInTurn(t: Tables, n: nat, k: nat, rest: nat, idx: nat)
    requires n == k * t.modulus + rest && rest < t.modulus && idx < |t.residues|
    requires t.residues[idx] <= rest && (idx + 1 < |t.residues| ==> rest < t.residues[idx + 1])
    ensures Candidate(t, k, idx) <= n < NextCandidate(t, k, idx)
  {
    assert (k + 1) * t.modulus == k * t.modulus + t.modulus;
  }

  lemma BracketedAcrossTurns(t: Tables, n: nat, k: nat, rest: nat)
    requires |t.residues| > 0 && n == (k + 1) * t.modulus + rest && rest < t.residues[0]
    requires t.residues[|t.residues| - 1] <= t.modulus
    ensures Candidate(t, k, |t.residues| - 1) <= n < NextCandidate(t, k, |t.residues| - 1)
  {
    assert (k + 1) * t.modulus == k * t.modulus + t.modulus;
  }

  /** Above the first non-small prime, a number with nothing on the wheel between its last
      candidate and itself has that candidate at or above the first non-small prime, and no
      prime in between. */
  lemma CandidateBelow(t: Tables, k: nat, idx: nat, x: nat)
    requires GoodTables(t) && idx < |t.residues| && t.firstNonSmall < x
    requires OffWheelBetween(t, Candidate(t, k, idx), x)
    ensures t.firstNonSmall <= Candidate(t, k, idx) && NoPrimeIn(Candidate(t, k, idx) + 1, x)
  {
    hide OnWheel, NoPrimeIn, GoodWheel, Candidate;
    NotBelowFirstNonSmall(t, Candidate(t, k, idx), x);
    OffWheelMeansNoPrime(t, Candidate(t, k, idx), x);
  }

  // One candidate back; before the first one of a turn comes the last one of the turn before.
  method PreviousCandidate(t: Tables, k: nat, idx: nat) returns (k': nat, idx': nat)
    requires GoodTables(t) && idx < |t.residues| && t.firstNonSmall < Candidate(t, k, idx)
    ensures idx' < |t.residues| && t.firstNonSmall <= Candidate(t, k', idx') < Candidate(t, k, idx)
    ensures NoPrimeIn(Candidate(t, k', idx') + 1, Candidate(t, k, idx))
  {
    FirstNonSmallIsLarge(t);
    ResidueEnds(t);
    hide GoodWheel, GoodSmallPrimes, GoodIncrements, OnWheel, NoPrimeIn, IsPrime;
    k', idx' := k, idx;
    if idx == 0 {
      // k is positive here: candidate (0, 0) is below firstNonSmall
      k' := k' - 1;
      idx' := |t.residues| - 1;
    } else {
      idx' := idx' - 1;
    }
    assert NextCandidate(t, k', idx') == Candidate(t, k, idx);
    NothingBetween(t, k', idx');
    CandidateBelow(t, k', idx', Candidate(t, k, idx));
  }

  // The outer search loop of get_previous_prime_number.
  method SearchDownward(t: Tables, n: nat, k0: nat, idx0: nat) returns (r: nat)
    requires GoodTables(t) && idx0 < |t.residues|
    requires t.firstNonSmall <= Candidate(t, k0, idx0) <= n && NoPrimeIn(Candidate(t, k0, idx0) + 1, n + 1)
    ensures IsPrime(r) && t.firstNonSmall <= r <= n && NoPrimeIn(r + 1, n + 1)
  {
    BelowFirstNonSmall(t);
    FirstNonSmallIsLarge(t);
    assert GoodSmallPrimes(t) && GoodWheel(t);
    hide Candidate, IsPrime, NoPrimeIn, OnWheel, GoodTables, GoodSmallPrimes, GoodWheel;
    var k: nat, idx: nat := k0, idx0;
    var number := Candidate(t, k, idx);
    while true
      invariant idx < |t.residues| && number == Candidate(t, k, idx)
      invariant t.firstNonSmall <= number <= n && NoPrimeIn(number + 1, n + 1)
      decreases number
    {
      CandidatesAreOnWheel(t, k, idx);
      var prime := TrialDivision(t, number);
      if prime {
        return number;
      }
      ghost var was := number;
      k, idx := PreviousCandidate(t, k, idx);
      number := Candidate(t, k, idx);
      NoPrimeJoined(number + 1, was, n + 1);
    }
  }

  lemma FirstPrimeIsTwo(t: Tables)
    requires GoodSmallPrimes(t)
    ensures t.smallPrimes[0] == 2
  {
    assert t.smallPrimes[0] in t.smallPrimes;
    assert IsPrime(2);
    assert t.smallPrimes[0] < t.firstNonSmall;
    assert 2 in t.smallPrimes;
    var j :| 0 <= j < |t.smallPrimes| && t.smallPrimes[j] == 2;
  }

  lemma SmallAnswerBelow(t: Tables, n: nat, i: nat)
    requires GoodSmallPrimes(t) && t.smallPrimes[0] <= n < t.firstNonSmall && i <= |t.smallPrimes|
    requires forall j | 0 <= j < i :: t.smallPrimes[j] <= n
    requires forall j | i <= j < |t.smallPrimes| :: n < t.smallPrimes[j]
    ensures i > 0 && IsPrime(t.smallPrimes[i - 1]) && t.smallPrimes[i - 1] <= n
    ensures NoPrimeIn(t.smallPrimes[i - 1] + 1, n + 1)
  {
    assert t.smallPrimes[i - 1] in t.smallPrimes;
    forall p: nat | t.smallPrimes[i - 1] < p <= n
      ensures !IsPrime(p)
    {
      assert p in t.smallPrimes <==> IsPrime(p) && p < t.firstNonSmall;
    }
  }
}
