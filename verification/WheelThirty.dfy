/** A small instance of the prime tables, modulus 2 * 3 * 5, built like the source's tables for
    2 * 3 * 5 * 7 * 11 * 13: the table conditions can be met. */
module WheelThirty {
  import opened NumberTheory
  import opened Primes

  function WheelTables(): Tables {
    Tables([2, 3, 5, 7, 11, 13, 17, 19, 23, 29], 31, 30, [1, 7, 11, 13, 17, 19, 23, 29], [6, 4, 2, 4, 2, 4, 6, 2], 3)
  }

  lemma PrimesBelowSix(p: nat)
    requires p < 6 && IsPrime(p)
    ensures p == 2 || p == 3 || p == 5
  {
    assert Divides(2, 4);
  }

  lemma PrimeBelow36(n: nat)
    requires 2 <= n < 36 && n % 2 != 0 && n % 3 != 0 && n % 5 != 0
    ensures IsPrime(n)
  {
    forall p: nat | IsPrime(p) && p < 6
      ensures !Divides(p, n)
    {
      PrimesBelowSix(p);
    }
    NoSmallFactorMeansPrime(n, 6);
  }

  lemma CompositeBelow36(n: nat)
    requires (n % 2 == 0 && n != 2) || (n % 3 == 0 && n != 3) || (n % 5 == 0 && n != 5)
    ensures !IsPrime(n)
  {
    assert n >= 2 ==> Divides(2, n) || Divides(3, n) || Divides(5, n);
  }

  lemma ResiduesOfThirty(r: nat)
    requires r < 32
    ensures r % 2 != 0 && r % 3 != 0 && r % 5 != 0 <==> r in [1, 7, 11, 13, 17, 19, 23, 29, 31]
  {
  }

  lemma PrimesBelow32(p: nat)
    requires p < 32
    ensures IsPrime(p) <==> p in [2, 3, 5, 7, 11, 13, 17, 19, 23, 29, 31]
  {
    hide IsPrime;
    ResiduesOfThirty(p);
    if p < 2 {
      ZeroAndOne(p);
    } else if p == 2 || p == 3 || p == 5 {
      SmallestPrimes();
    } else if p % 2 != 0 && p % 3 != 0 && p % 5 != 0 {
      PrimeBelow36(p);
    } else {
      CompositeBelow36(p);
    }
  }

  lemma ZeroAndOne(p: nat)
    requires p < 2
    ensures !IsPrime(p)
  {
  }

  lemma SmallestPrimes()
    ensures IsPrime(2) && IsPrime(3) && IsPrime(5)
  {
    assert !Divides(2, 3);
    assert !Divides(2, 5) && !Divides(3, 5) && !Divides(4, 5);
  }

  lemma OnThisWheel(x: nat)
    ensures OnWheel(WheelTables(), x) <==> x % 2 != 0 && x % 3 != 0 && x % 5 != 0
  {
    var t := WheelTables();
    assert t.smallPrimes[0] == 2 && t.smallPrimes[1] == 3 && t.smallPrimes[2] == 5;
  }

  lemma SmallPrimesAreGood()
    ensures GoodSmallPrimes(WheelTables())
  {
    var t := WheelTables();
    forall p: nat
      ensures p in t.smallPrimes <==> IsPrime(p) && p < 31
    {
      if p < 31 {
        PrimesBelow32(p);
      }
    }
    PrimesBelow32(31);
  }

  lemma ResidueListed(r: nat)
    ensures r in WheelTables().residues <==> r < 30 && OnWheel(WheelTables(), r)
  {
    hide OnWheel;
    OnThisWheel(r);
    if r < 30 {
      ResiduesOfThirty(r);
    }
  }

  lemma WheelIsGood()
    ensures GoodWheel(WheelTables())
  {
    var t := WheelTables();
    forall r: nat
      ensures r in t.residues <==> r < 30 && OnWheel(t, r)
    {
      ResidueListed(r);
    }
    assert Divides(2, 30) && Divides(3, 30) && Divides(5, 30);
  }

  lemma SpokeValues(i: nat)
    requires i <= 8
    ensures Spoke(WheelTables(), i) == [31, 37, 41, 43, 47, 49, 53, 59, 61][i]
  {
    var s := WheelTables().increments;
    assert s[..0] == [];
    if i > 0 {
      SpokeValues(i - 1);
      assert s[..i][..i - 1] == s[..i - 1];
    }
  }

  lemma GapIsOffWheel(x: nat)
    requires 31 <= x <= 61
    ensures OnWheel(WheelTables(), x) <==> x in [31, 37, 41, 43, 47, 49, 53, 59, 61]
  {
    hide OnWheel;
    OnThisWheel(x);
    TurnedBack(x);
    ResiduesOfThirty(x - 30);
  }

  lemma TurnedBack(x: nat)
    requires x >= 30
    ensures x % 2 == (x - 30) % 2 && x % 3 == (x - 30) % 3 && x % 5 == (x - 30) % 5
  {
  }

  lemma IncrementIsGood(i: nat)
    requires i < 8
    ensures var t := WheelTables();
            OnWheel(t, Spoke(t, i)) && OffWheelBetween(t, Spoke(t, i), Spoke(t, i) + t.increments[i])
  {
    hide OnWheel, Spoke;
    var t := WheelTables();
    SpokeValues(i);
    SpokeValues(i + 1);
    GapIsOffWheel(Spoke(t, i));
    forall x | Spoke(t, i) < x < Spoke(t, i) + t.increments[i]
      ensures !OnWheel(t, x)
    {
      GapIsOffWheel(x);
    }
  }

  lemma OneTurn()
    ensures Sum(WheelTables().increments) == 30
  {
    SpokeValues(8);
    assert WheelTables().increments[..8] == WheelTables().increments;
  }

  lemma IncrementsAreGood()
    ensures GoodIncrements(WheelTables())
  {
    var t := WheelTables();
    OneTurn();
    hide OnWheel, OffWheelBetween, Spoke, Sum;
    forall i | 0 <= i < 8
      ensures OnWheel(t, Spoke(t, i)) && OffWheelBetween(t, Spoke(t, i), Spoke(t, i) + t.increments[i])
    {
      IncrementIsGood(i);
    }
  }

  /** The conditions on the tables hold of an actual wheel. */
  lemma TablesAreGood()
    ensures GoodTables(WheelTables())
  {
    SmallPrimesAreGood();
    WheelIsGood();
    IncrementsAreGood();
  }
}
