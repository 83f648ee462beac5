/** Evaluating a predicate on all rows at once over bit sets: getAllMatches() of the predicate
    classes, with optional filter and existence map, with and without short-circuiting. */
module PredicateMatching {
  import opened BitVectorSpec
  import opened BitVectors
  import opened Options
  import opened Predicates

  /** An optional bit set of the right length. */
  ghost predicate Usable(v: BitVector?, n: nat)
    reads if v == null then {} else {v, v.data}
  {
    v != null ==> v.Valid() && v.numBits == n
  }

  /** The rows to look at: the filter if there is one, else the existence map, else all. */
  ghost function Base(filter: BitVector?, existence: BitVector?, n: nat): (base: seq<bool>)
    requires Usable(filter, n) && Usable(existence, n)
    reads if filter == null then {} else {filter, filter.data}
    reads if existence == null then {} else {existence, existence.data}
    ensures |base| == n
  {
    if filter != null then filter.Bits() else if existence != null then existence.Bits() else seq(n, _ => true)
  }

  ghost predicate Subset(a: seq<bool>, b: seq<bool>) {
    |a| == |b| && forall t :: 0 <= t < |a| && a[t] ==> b[t]
  }

  /** What getAllMatches() asks of its arguments. */
  ghost predicate Inputs(filter: BitVector?, existence: BitVector?, n: nat)
    reads if filter == null then {} else {filter, filter.data}
    reads if existence == null then {} else {existence, existence.data}
  {
    && Usable(filter, n) && Usable(existence, n)
    && (filter != null && existence != null ==> Subset(filter.Bits(), existence.Bits()))
  }

  /** The rows of base on which p holds. */
  ghost function Accepted(p: Predicate, o: Oracle, rows: seq<Row>, base: seq<bool>): seq<bool>
    requires |base| == |rows|
  {
    seq(|rows|, t requires 0 <= t < |rows| => base[t] && Meaning(p, o, rows[t]))
  }

  ghost function AcceptedByAll(ps: seq<Predicate>, o: Oracle, rows: seq<Row>, base: seq<bool>): seq<bool>
    requires |base| == |rows|
  {
    seq(|rows|, t requires 0 <= t < |rows| => base[t] && AllHold(ps, o, rows[t]))
  }

  ghost function AcceptedByAny(ps: seq<Predicate>, o: Oracle, rows: seq<Row>, base: seq<bool>): seq<bool>
    requires |base| == |rows|
  {
    seq(|rows|, t requires 0 <= t < |rows| => base[t] && AnyHolds(ps, o, rows[t]))
  }

  // ---- one step of each loop ----------------------------------------------------------------

  lemma HoldNext(ps: seq<Predicate>, i: nat, o: Oracle, row: Row)
    requires i < |ps|
    ensures AllHold(ps[..i + 1], o, row) <==> AllHold(ps[..i], o, row) && Meaning(ps[i], o, row)
    ensures AnyHolds(ps[..i + 1], o, row) <==> AnyHolds(ps[..i], o, row) || Meaning(ps[i], o, row)
  {
    var a, b := ps[..i], ps[..i + 1];
    assert b == a + [ps[i]];
    assert forall j :: 0 <= j < i ==> b[j] == a[j];
  }

  lemma NarrowedByOne(ps: seq<Predicate>, i: nat, o: Oracle, rows: seq<Row>, base: seq<bool>)
    requires i < |ps| && |base| == |rows|
    ensures var current := AcceptedByAll(ps[..i], o, rows, base);
            Intersection(current, Accepted(ps[i], o, rows, current)) == AcceptedByAll(ps[..i + 1], o, rows, base)
  {
    forall t | 0 <= t < |rows|
      ensures AllHold(ps[..i + 1], o, rows[t]) <==> AllHold(ps[..i], o, rows[t]) && Meaning(ps[i], o, rows[t])
    {
      HoldNext(ps, i, o, rows[t]);
    }
    hide AllHold, Meaning;
  }

  lemma NothingLeft(ps: seq<Predicate>, i: nat, o: Oracle, rows: seq<Row>, base: seq<bool>, current: seq<bool>)
    requires i <= |ps| && |base| == |rows|
    requires current == AcceptedByAll(ps[..i], o, rows, base) && forall t :: 0 <= t < |current| ==> !current[t]
    ensures current == AcceptedByAll(ps, o, rows, base)
  {
    forall t | 0 <= t < |rows|
      ensures !(base[t] && AllHold(ps, o, rows[t]))
    {
      assert !current[t];
      assert AllHold(ps, o, rows[t]) ==> AllHold(ps[..i], o, rows[t]);
    }
  }

  /** Rows of base that no operand so far accepted. */
  ghost function Remaining(ps: seq<Predicate>, o: Oracle, rows: seq<Row>, base: seq<bool>): seq<bool>
    requires |base| == |rows|
  {
    seq(|rows|, t requires 0 <= t < |rows| => base[t] && !AnyHolds(ps, o, rows[t]))
  }

  /** One more operand of a disjunction, looked at on all rows of base or only on those that
      remain: the union is the same. */
  lemma WidenedByOne(ps: seq<Predicate>, i: nat, o: Oracle, rows: seq<Row>, base: seq<bool>)
    requires i < |ps| && |base| == |rows|
    ensures var union, left, next :=
              AcceptedByAny(ps[..i], o, rows, base), Remaining(ps[..i], o, rows, base),
              AcceptedByAny(ps[..i + 1], o, rows, base);
            && Union(union, Accepted(ps[i], o, rows, base)) == next
            && Union(union, Accepted(ps[i], o, rows, left)) == next
            && Intersection(left, Flipped(Accepted(ps[i], o, rows, left))) == Remaining(ps[..i + 1], o, rows, base)
  {
    forall t | 0 <= t < |rows|
      ensures AnyHolds(ps[..i + 1], o, rows[t]) <==> AnyHolds(ps[..i], o, rows[t]) || Meaning(ps[i], o, rows[t])
    {
      HoldNext(ps, i, o, rows[t]);
    }
    hide AnyHolds, Meaning;
  }

  lemma NoOperandsYet(ps: seq<Predicate>, o: Oracle, rows: seq<Row>, base: seq<bool>)
    requires |base| == |rows|
    ensures AcceptedByAll(ps[..0], o, rows, base) == base == Remaining(ps[..0], o, rows, base)
    ensures AcceptedByAny(ps[..0], o, rows, base) == Zeros(|rows|)
    ensures Subset(base, base)
  {
  }

  lemma NarrowingStays(a: seq<bool>, b: seq<bool>, outer: seq<bool>)
    requires |a| == |b| == |outer|
    ensures Subset(a, outer) ==> Subset(Intersection(a, b), outer)
  {
  }

  lemma OperandsBuilt(p: Predicate)
    requires Built(p) && (p.Conjunction? || p.Disjunction?)
    ensures forall i :: 0 <= i < |p.dynamics| ==> Built(p.dynamics[i])
  {
  }

  // ---- the evaluator ----------------------------------------------------------------------------

  // The starting filter of a list predicate, and the result of a static `true`.
  method StartingSet(n: nat, filter: BitVector?, existence: BitVector?) returns (s: BitVector)
    requires Inputs(filter, existence, n)
    ensures fresh(s) && fresh(s.data) && s.Valid() && s.numBits == n
    ensures s.Bits() == Base(filter, existence, n)
  {
    s := new BitVector(n);
    if filter != null {
      s.AssignFrom(filter);
    } else if existence != null {
      s.AssignFrom(existence);
    } else {
      s.SetBitRange(0, n, true);
    }
  }

  method GenerateSequenceForStaticResult(n: nat, filter: BitVector?, existence: BitVector?, result: bool)
    returns (matches: BitVector)
    requires Inputs(filter, existence, n)
    ensures fresh(matches) && fresh(matches.data) && matches.Valid() && matches.numBits == n
    ensures matches.Bits() == if result then Base(filter, existence, n) else Zeros(n)
  {
    if result {
      matches := StartingSet(n, filter, existence);
    } else {
      matches := new BitVector(n);
    }
  }

  /** The rows of the base set on which p holds, whether or not evaluation short-circuits. */
  method GetAllMatches(p: Predicate, o: Oracle, rows: seq<Row>, filter: BitVector?, existence: BitVector?,
                       shortCircuit: bool)
    returns (matches: BitVector)
    requires Built(p) && Inputs(filter, existence, |rows|)
    ensures fresh(matches) && fresh(matches.data) && matches.Valid() && matches.numBits == |rows|
    ensures matches.Bits() == Accepted(p, o, rows, Base(filter, existence, |rows|))
    ensures forall t | 0 <= t < |rows| ::
              matches.Bits()[t] <==>
              && (filter != null ==> filter.Bits()[t]) && (existence != null ==> existence.Bits()[t])
              && Meaning(p, o, rows[t])
    decreases p, 1
  {
    if StaticOf(p).Some? {
      matches := GenerateSequenceForStaticResult(|rows|, filter, existence, StaticOf(p).value);
      StaticAccepts(p, o, rows, Base(filter, existence, |rows|));
    } else {
      match p
      case Comparison(leaf) => matches := CompareAll(leaf, o, rows, filter, existence);
      case Negation(_, _) => matches := NegationMatches(p, o, rows, filter, existence, shortCircuit);
      case Conjunction(_, _, _) => matches := ConjunctionMatches(p, o, rows, filter, existence, shortCircuit);
      case Disjunction(_, _, _) => matches := DisjunctionMatches(p, o, rows, filter, existence, shortCircuit);
    }
  }

  lemma StaticAccepts(p: Predicate, o: Oracle, rows: seq<Row>, base: seq<bool>)
    requires Built(p) && StaticOf(p).Some? && |base| == |rows|
    ensures Accepted(p, o, rows, base) == if StaticOf(p).value then base else Zeros(|rows|)
  {
    forall t | 0 <= t < |rows|
      ensures Meaning(p, o, rows[t]) == StaticOf(p).value
    {
      StaticMeansAlways(p, o, rows[t]);
    }
    hide Meaning, StaticOf;
  }

  /** The comparison's outcome on the first t rows, nothing on the others. */
  ghost function Compared(leaf: Leaf, o: Oracle, rows: seq<Row>, base: seq<bool>, t: nat): seq<bool>
    requires |base| == |rows|
  {
    seq(|rows|, u requires 0 <= u < |rows| => u < t && base[u] && o(leaf.id, rows[u]))
  }

  lemma ComparedNext(leaf: Leaf, o: Oracle, rows: seq<Row>, base: seq<bool>, t: nat)
    requires |base| == |rows| && t < |rows|
    ensures Compared(leaf, o, rows, base, t + 1) ==
            if base[t] then Compared(leaf, o, rows, base, t)[t := o(leaf.id, rows[t])]
            else Compared(leaf, o, rows, base, t)
  {
  }

  lemma ComparedEnds(leaf: Leaf, o: Oracle, rows: seq<Row>, base: seq<bool>)
    requires |base| == |rows| && leaf.fixed.None?
    ensures Compared(leaf, o, rows, base, 0) == Zeros(|rows|)
    ensures Compared(leaf, o, rows, base, |rows|) == Accepted(Comparison(leaf), o, rows, base)
  {
  }

  // What every comparison is taken to do: test the rows of the base set one by one.
  method CompareAll(leaf: Leaf, o: Oracle, rows: seq<Row>, filter: BitVector?, existence: BitVector?)
    returns (matches: BitVector)
    requires leaf.fixed.None? && Inputs(filter, existence, |rows|)
    ensures fresh(matches) && fresh(matches.data) && matches.Valid() && matches.numBits == |rows|
    ensures matches.Bits() == Accepted(Comparison(leaf), o, rows, Base(filter, existence, |rows|))
  {
    hide PaddingClear, Logical, Accepted, Compared, Subset;
    ghost var base := Base(filter, existence, |rows|);
    matches := new BitVector(|rows|);
    ComparedEnds(leaf, o, rows, base);
    for t := 0 to |rows|
      invariant matches.Valid() && fresh(matches) && fresh(matches.data) && matches.numBits == |rows|
      invariant Usable(filter, |rows|) && Usable(existence, |rows|) && Base(filter, existence, |rows|) == base
      invariant matches.Bits() == Compared(leaf, o, rows, base, t)
    {
      ComparedNext(leaf, o, rows, base, t);
      var tested := true;
      if filter != null {
        tested := filter.GetBit(t);
      } else if existence != null {
        tested := existence.GetBit(t);
      }
      if tested {
        matches.SetBit(t, o(leaf.id, rows[t]));
      }
    }
  }

  method NegationMatches(p: Predicate, o: Oracle, rows: seq<Row>, filter: BitVector?, existence: BitVector?,
                         shortCircuit: bool)
    returns (matches: BitVector)
    requires p.Negation? && Built(p) && Inputs(filter, existence, |rows|)
    ensures fresh(matches) && fresh(matches.data) && matches.Valid() && matches.numBits == |rows|
    ensures matches.Bits() == Accepted(p, o, rows, Base(filter, existence, |rows|))
    decreases p, 0
  {
    matches := GetAllMatches(p.operand, o, rows, filter, existence, shortCircuit);
    matches.FlipBits();
    if filter != null {
      matches.IntersectWith(filter);
    }
    if existence != null {
      matches.IntersectWith(existence);
    }
  }

  method ConjunctionMatches(p: Predicate, o: Oracle, rows: seq<Row>, filter: BitVector?, existence: BitVector?,
                            shortCircuit: bool)
    returns (current: BitVector)
    requires p.Conjunction? && p.fixed.None? && Built(p) && Inputs(filter, existence, |rows|)
    ensures fresh(current) && fresh(current.data) && current.Valid() && current.numBits == |rows|
    ensures current.Bits() == Accepted(p, o, rows, Base(filter, existence, |rows|))
    decreases p, 0
  {
    hide PaddingClear, Logical, Accepted, AcceptedByAll, Built, Subset, Intersection;
    ghost var base := Base(filter, existence, |rows|);
    NoOperandsYet(p.dynamics, o, rows, base);
    OperandsBuilt(p);
    current := StartingSet(|rows|, filter, existence);
    var i := 0;
    while i < |p.dynamics|
      invariant 0 <= i <= |p.dynamics|
      invariant fresh(current) && fresh(current.data) && current.Valid() && current.numBits == |rows|
      invariant Inputs(current, existence, |rows|)
      invariant current.Bits() == AcceptedByAll(p.dynamics[..i], o, rows, base)
    {
      var found := current.Any();
      if !found {
        NothingLeft(p.dynamics, i, o, rows, base, current.Bits());
        break;
      }
      var operandResult := GetAllMatches(p.dynamics[i], o, rows, current, existence, shortCircuit);
      NarrowingStays(current.Bits(), operandResult.Bits(),
                     if existence != null then existence.Bits() else current.Bits());
      current.IntersectWith(operandResult);
      NarrowedByOne(p.dynamics, i, o, rows, base);
      i := i + 1;
    }
    assert p.dynamics[..|p.dynamics|] == p.dynamics;
    DynamicsDecideAll(p, o, rows, base);
  }

  lemma DynamicsDecideAll(p: Predicate, o: Oracle, rows: seq<Row>, base: seq<bool>)
    requires (p.Conjunction? || p.Disjunction?) && p.fixed.None? && Built(p) && |base| == |rows|
    ensures Accepted(p, o, rows, base) ==
            if p.Conjunction? then AcceptedByAll(p.dynamics, o, rows, base)
            else AcceptedByAny(p.dynamics, o, rows, base)
  {
    forall t | 0 <= t < |rows|
      ensures Meaning(p, o, rows[t]) ==
              if p.Conjunction? then AllHold(p.dynamics, o, rows[t]) else AnyHolds(p.dynamics, o, rows[t])
    {
      DynamicsDecide(p, o, rows[t]);
    }
    hide Meaning, AllHold, AnyHolds;
  }

  // The rows that an operand matched need not be looked at again.
  method DropMatched(current: BitVector, matched: BitVector, existence: BitVector?)
    requires current.Valid() && matched.Valid() && current.numBits == matched.numBits
    requires Inputs(current, existence, current.numBits)
    requires current.data != matched.data
    requires existence != null ==> existence.data != current.data && existence.data != matched.data
    modifies current.data, matched.data
    ensures current.Valid() && Inputs(current, existence, current.numBits)
    ensures current.Bits() == Intersection(old(current.Bits()), Flipped(old(matched.Bits())))
  {
    hide PaddingClear, Logical, Subset, Intersection, Flipped;
    matched.FlipBits();
    NarrowingStays(current.Bits(), matched.Bits(), if existence != null then existence.Bits() else current.Bits());
    current.IntersectWith(matched);
  }

  method DisjunctionMatches(p: Predicate, o: Oracle, rows: seq<Row>, filter: BitVector?, existence: BitVector?,
                            shortCircuit: bool)
    returns (union: BitVector)
    requires p.Disjunction? && p.fixed.None? && Built(p) && Inputs(filter, existence, |rows|)
    ensures fresh(union) && fresh(union.data) && union.Valid() && union.numBits == |rows|
    ensures union.Bits() == Accepted(p, o, rows, Base(filter, existence, |rows|))
    decreases p, 0
  {
    hide PaddingClear, Logical, Accepted, AcceptedByAny, Remaining, Built, Subset, Intersection, Flipped, Union;
    ghost var base := Base(filter, existence, |rows|);
    NoOperandsYet(p.dynamics, o, rows, base);
    OperandsBuilt(p);
    union := new BitVector(|rows|);
    var current := filter;
    if shortCircuit {
      current := StartingSet(|rows|, filter, existence);
    }
    for i := 0 to |p.dynamics|
      invariant fresh(union) && fresh(union.data) && union.Valid() && union.numBits == |rows|
      invariant union.Bits() == AcceptedByAny(p.dynamics[..i], o, rows, base)
      invariant Inputs(current, existence, |rows|)
      invariant shortCircuit ==>
                  current != null && fresh(current) && fresh(current.data) && current.data != union.data &&
                  current.Bits() == Remaining(p.dynamics[..i], o, rows, base)
      invariant !shortCircuit ==> current == filter && Base(current, existence, |rows|) == base
    {
      var operandResult := GetAllMatches(p.dynamics[i], o, rows, current, existence, shortCircuit);
      union.UnionWith(operandResult);
      if shortCircuit {
        DropMatched(current, operandResult, existence);
      }
      WidenedByOne(p.dynamics, i, o, rows, base);
    }
    assert p.dynamics[..|p.dynamics|] == p.dynamics;
    DynamicsDecideAll(p, o, rows, base);
  }
}
