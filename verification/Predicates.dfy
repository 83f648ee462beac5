/** Predicate trees (expressions/predicate): what a finished predicate is, what it means on a
    row, and the static results it caches. */
module Predicates {
  import opened Options

  type Value = int
  type Row = seq<Value>

  /** The truth of a comparison, by its number, on a row: comparisons themselves are not modelled. */
  type Oracle = (nat, Row) -> bool

  /** A comparison; `fixed` is its result when both sides are constants. */
  datatype Leaf = Leaf(id: nat, fixed: Option<bool>)

  /** `fixed` is has_static_result_ and static_result_: the cached result, if there is one. */
  datatype Predicate =
    | True
    | False
    | Comparison(leaf: Leaf)
    | Negation(operand: Predicate, fixed: Option<bool>)
    | Conjunction(statics: seq<Predicate>, dynamics: seq<Predicate>, fixed: Option<bool>)
    | Disjunction(statics: seq<Predicate>, dynamics: seq<Predicate>, fixed: Option<bool>)

  // hasStaticResult() and getStaticResult()
  function StaticOf(p: Predicate): Option<bool> {
    match p
    case True => Some(true)
    case False => Some(false)
    case Comparison(leaf) => leaf.fixed
    case _ => p.fixed
  }

  function Opposite(r: Option<bool>): Option<bool> {
    if r.Some? then Some(!r.value) else None
  }

  predicate HasStatic(ps: seq<Predicate>, b: bool) {
    exists i :: 0 <= i < |ps| && StaticOf(ps[i]) == Some(b)
  }

  /** The result a conjunction with these operands should have cached. */
  function ConjunctionResult(statics: seq<Predicate>, dynamics: seq<Predicate>): Option<bool> {
    if HasStatic(statics, false) then Some(false) else if dynamics == [] then Some(true) else None
  }

  /** The same for a disjunction; without any operand it is true. */
  function DisjunctionResult(statics: seq<Predicate>, dynamics: seq<Predicate>): Option<bool> {
    if HasStatic(statics, true) then Some(true)
    else if dynamics == [] then Some(statics == [])
    else None
  }

  // ---- meaning, without caches ------------------------------------------------------------

  predicate Meaning(p: Predicate, o: Oracle, row: Row) {
    match p
    case True => true
    case False => false
    case Comparison(leaf) => if leaf.fixed.Some? then leaf.fixed.value else o(leaf.id, row)
    case Negation(q, _) => !Meaning(q, o, row)
    case Conjunction(statics, dynamics, _) => AllHold(statics, o, row) && AllHold(dynamics, o, row)
    case Disjunction(statics, dynamics, _) =>
      (statics == [] && dynamics == []) || AnyHolds(statics, o, row) || AnyHolds(dynamics, o, row)
  }

  predicate AllHold(ps: seq<Predicate>, o: Oracle, row: Row) {
    forall i :: 0 <= i < |ps| ==> Meaning(ps[i], o, row)
  }

  predicate AnyHolds(ps: seq<Predicate>, o: Oracle, row: Row) {
    exists i :: 0 <= i < |ps| && Meaning(ps[i], o, row)
  }

  predicate EmptyDisjunction(p: Predicate) {
    p.Disjunction? && p.statics == [] && p.dynamics == []
  }

  // ---- what the constructors and addPredicate can build ---------------------------------------

  /** Every cached result is right, static and dynamic operands are kept apart, and no list
      predicate holds one of its own kind. */
  predicate Built(p: Predicate) {
    match p
    case True => true
    case False => true
    case Comparison(_) => true
    case Negation(q, fixed) => Built(q) && fixed == Opposite(StaticOf(q))
    case Conjunction(statics, dynamics, fixed) =>
      && AllBuilt(statics, true) && AllBuilt(dynamics, false)
      && (forall i :: 0 <= i < |statics| ==> !statics[i].Conjunction?)
      && (forall i :: 0 <= i < |dynamics| ==> !dynamics[i].Conjunction?)
      && fixed == ConjunctionResult(statics, dynamics)
    case Disjunction(statics, dynamics, fixed) =>
      && AllBuilt(statics, true) && AllBuilt(dynamics, false)
      && (forall i :: 0 <= i < |statics| ==> !statics[i].Disjunction?)
      && (forall i :: 0 <= i < |dynamics| ==> !dynamics[i].Disjunction?)
      && fixed == DisjunctionResult(statics, dynamics)
  }

  predicate AllBuilt(ps: seq<Predicate>, fixed: bool) {
    forall i :: 0 <= i < |ps| ==> Built(ps[i]) && StaticOf(ps[i]).Some? == fixed
  }

  /** No negation of a negation anywhere. */
  predicate Reduced(p: Predicate) {
    match p
    case True => true
    case False => true
    case Comparison(_) => true
    case Negation(q, _) => !q.Negation? && Reduced(q)
    case Conjunction(statics, dynamics, _) =>
      && (forall i :: 0 <= i < |statics| ==> Reduced(statics[i]))
      && (forall i :: 0 <= i < |dynamics| ==> Reduced(dynamics[i]))
    case Disjunction(statics, dynamics, _) =>
      && (forall i :: 0 <= i < |statics| ==> Reduced(statics[i]))
      && (forall i :: 0 <= i < |dynamics| ==> Reduced(dynamics[i]))
  }

  predicate AllReduced(ps: seq<Predicate>) {
    forall i :: 0 <= i < |ps| ==> Reduced(ps[i])
  }

  /** A cached static result is what the predicate means on every row. */
  lemma {:induction false} StaticMeansAlways(p: Predicate, o: Oracle, row: Row)
    requires Built(p) && StaticOf(p).Some?
    ensures Meaning(p, o, row) == StaticOf(p).value
  {
    match p
    case True =>
    case False =>
    case Comparison(_) =>
    case Negation(q, _) => StaticMeansAlways(q, o, row);
    case Conjunction(statics, _, _) => AllStaticMeanAlways(statics, o, row);
    case Disjunction(statics, _, _) => AllStaticMeanAlways(statics, o, row);
  }

  lemma {:induction false} AllStaticMeanAlways(ps: seq<Predicate>, o: Oracle, row: Row)
    requires AllBuilt(ps, true)
    ensures AllHold(ps, o, row) == !HasStatic(ps, false)
    ensures AnyHolds(ps, o, row) == HasStatic(ps, true)
  {
    forall i | 0 <= i < |ps|
      ensures Meaning(ps[i], o, row) == StaticOf(ps[i]).value
    {
      StaticMeansAlways(ps[i], o, row);
    }
  }

  /** With a result that is not static, only the dynamic operands matter. */
  lemma DynamicsDecide(p: Predicate, o: Oracle, row: Row)
    requires Built(p) && (p.Conjunction? || p.Disjunction?) && p.fixed.None?
    ensures Meaning(p, o, row) ==
            if p.Conjunction? then AllHold(p.dynamics, o, row) else AnyHolds(p.dynamics, o, row)
  {
    AllStaticMeanAlways(p.statics, o, row);
  }

  /** What holds on a row, class by class. */
  lemma MeaningByClass(p: Predicate, o: Oracle, row: Row)
    ensures p == True ==> Meaning(p, o, row)
    ensures p == False ==> !Meaning(p, o, row)
    ensures p.Comparison? && p.leaf.fixed.None? ==> Meaning(p, o, row) == o(p.leaf.id, row)
    ensures p.Comparison? && p.leaf.fixed.Some? ==> Meaning(p, o, row) == p.leaf.fixed.value
    ensures p.Negation? ==> Meaning(p, o, row) != Meaning(p.operand, o, row)
    ensures p.Conjunction? ==>
              (Meaning(p, o, row) <==> forall q | q in p.statics || q in p.dynamics :: Meaning(q, o, row))
    ensures p.Disjunction? && (p.statics != [] || p.dynamics != []) ==>
              (Meaning(p, o, row) <==> exists q :: (q in p.statics || q in p.dynamics) && Meaning(q, o, row))
  {
    if p.Conjunction? || p.Disjunction? {
      OperandsHold(p.statics, o, row);
      OperandsHold(p.dynamics, o, row);
      hide AllHold, AnyHolds;
    }
  }

  lemma OperandsHold(ps: seq<Predicate>, o: Oracle, row: Row)
    ensures AllHold(ps, o, row) <==> forall q | q in ps :: Meaning(q, o, row)
    ensures AnyHolds(ps, o, row) <==> exists q :: q in ps && Meaning(q, o, row)
  {
    assert forall i :: 0 <= i < |ps| ==> ps[i] in ps;
  }

  // matchesForSingleTuple(), over the cached results and the dynamic operands only.
  method MatchesForSingleTuple(p: Predicate, o: Oracle, row: Row) returns (matches: bool)
    requires Built(p)
    ensures matches == Meaning(p, o, row)
    ensures p.Comparison? && p.leaf.fixed.None? ==> matches == o(p.leaf.id, row)
    ensures p.Negation? ==> matches != Meaning(p.operand, o, row)
  {
    if StaticOf(p).Some? {
      StaticMeansAlways(p, o, row);
      return StaticOf(p).value;
    }
    match p
    case Comparison(leaf) => return o(leaf.id, row);
    case Negation(q, _) =>
      var inner := MatchesForSingleTuple(q, o, row);
      return !inner;
    case Conjunction(_, dynamics, _) =>
      DynamicsDecide(p, o, row);
      for i := 0 to |dynamics|
        invariant forall j :: 0 <= j < i ==> Meaning(dynamics[j], o, row)
      {
        var operand := MatchesForSingleTuple(dynamics[i], o, row);
        if !operand {
          return false;
        }
      }
      return true;
    case Disjunction(_, dynamics, _) =>
      DynamicsDecide(p, o, row);
      for i := 0 to |dynamics|
        invariant forall j :: 0 <= j < i ==> !Meaning(dynamics[j], o, row)
      {
        var operand := MatchesForSingleTuple(dynamics[i], o, row);
        if operand {
          return true;
        }
      }
      return false;
  }
}
