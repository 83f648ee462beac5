/** Building predicates: addPredicate of conjunctions and disjunctions, which splices operands of
    its own kind and keeps the cached result up to date, and the construction of negations. */
module PredicateBuilding {
  import opened Options
  import opened Predicates

  function EmptyConjunction(): Predicate {
    Conjunction([], [], Some(true))
  }

  function EmptyOr(): Predicate {
    Disjunction([], [], Some(true))
  }

  function Conjoined(statics: seq<Predicate>, dynamics: seq<Predicate>): (p: Predicate)
    ensures p.Conjunction?
  {
    Conjunction(statics, dynamics, ConjunctionResult(statics, dynamics))
  }

  function Disjoined(statics: seq<Predicate>, dynamics: seq<Predicate>): (p: Predicate)
    ensures p.Disjunction?
  {
    Disjunction(statics, dynamics, DisjunctionResult(statics, dynamics))
  }

  /** When a list predicate has a cached result, and which: a static operand decides it, or there is
      no dynamic operand. */
  lemma CachedWhenDecided(statics: seq<Predicate>, dynamics: seq<Predicate>)
    ensures ConjunctionResult(statics, dynamics).Some? <==>
            dynamics == [] || exists p | p in statics :: StaticOf(p) == Some(false)
    ensures ConjunctionResult(statics, dynamics) == Some(false) <==>
            exists p | p in statics :: StaticOf(p) == Some(false)
    ensures DisjunctionResult(statics, dynamics).Some? <==>
            dynamics == [] || exists p | p in statics :: StaticOf(p) == Some(true)
    ensures DisjunctionResult(statics, dynamics) == Some(true) <==>
            (statics == [] && dynamics == []) || exists p | p in statics :: StaticOf(p) == Some(true)
  {
    forall b: bool
      ensures HasStatic(statics, b) <==> exists p | p in statics :: StaticOf(p) == Some(b)
    {
      if i :| 0 <= i < |statics| && StaticOf(statics[i]) == Some(b) {
        assert statics[i] in statics;
      }
    }
  }

  /** Conjunction p after e is added, its result recomputed from both operand lists. */
  function WithConjunct(p: Predicate, e: Predicate): Predicate
    requires p.Conjunction?
  {
    if e.Conjunction? then Conjoined(p.statics + e.statics, p.dynamics + e.dynamics)
    else if StaticOf(e).Some? then Conjoined(p.statics + [e], p.dynamics)
    else Conjoined(p.statics, p.dynamics + [e])
  }

  function WithDisjunct(p: Predicate, e: Predicate): Predicate
    requires p.Disjunction?
  {
    if e.Disjunction? then Disjoined(p.statics + e.statics, p.dynamics + e.dynamics)
    else if StaticOf(e).Some? then Disjoined(p.statics + [e], p.dynamics)
    else Disjoined(p.statics, p.dynamics + [e])
  }

  /** The NegationPredicate constructor with its initHelper(). */
  function Negated(e: Predicate): Predicate {
    Negation(e, Opposite(StaticOf(e)))
  }

  // NegatePredicate()
  function NegatePredicate(e: Predicate): Predicate {
    if e.Negation? then e.operand else Negated(e)
  }

  lemma HasStaticAppend(ps: seq<Predicate>, e: Predicate, b: bool)
    ensures HasStatic(ps + [e], b) <==> HasStatic(ps, b) || StaticOf(e) == Some(b)
  {
    if HasStatic(ps, b) {
      var i :| 0 <= i < |ps| && StaticOf(ps[i]) == Some(b);
      assert (ps + [e])[i] == ps[i];
    }
    assert (ps + [e])[|ps|] == e;
  }

  class ConjunctionPredicate {
    var staticOperands: seq<Predicate>
    var dynamicOperands: seq<Predicate>
    var hasStaticResult: bool
    var staticResult: bool

    function Cached(): Option<bool>
      reads this
    {
      if hasStaticResult then Some(staticResult) else None
    }

    function Value(): Predicate
      reads this
    {
      Conjunction(staticOperands, dynamicOperands, Cached())
    }

    constructor ()
      ensures Value() == EmptyConjunction()
    {
      staticOperands, dynamicOperands := [], [];
      hasStaticResult, staticResult := true, true;
    }

    // `seen` are the static operands already accounted for
    method ProcessStaticOperand(operand: Predicate, ghost seen: seq<Predicate>)
      requires StaticOf(operand).Some?
      requires Cached() == ConjunctionResult(seen, dynamicOperands)
      modifies `hasStaticResult, `staticResult
      ensures Cached() == ConjunctionResult(seen + [operand], dynamicOperands)
    {
      HasStaticAppend(seen, operand, false);
      if !StaticOf(operand).value {
        hasStaticResult := true;
        staticResult := false;
      }
    }

    method ProcessDynamicOperand(ghost seen: seq<Predicate>)
      requires Cached() == ConjunctionResult(staticOperands, seen) && dynamicOperands != []
      modifies `hasStaticResult
      ensures Cached() == ConjunctionResult(staticOperands, dynamicOperands)
    {
      if hasStaticResult {
        if staticResult {
          hasStaticResult := false;
        }
      }
    }

    method AddPredicate(operand: Predicate)
      requires Built(Value()) && Built(operand)
      modifies this
      ensures Value() == WithConjunct(old(Value()), operand)
      ensures staticOperands == old(staticOperands) +
              if operand.Conjunction? then operand.statics else if StaticOf(operand).Some? then [operand] else []
      ensures dynamicOperands == old(dynamicOperands) +
              if operand.Conjunction? then operand.dynamics else if StaticOf(operand).Some? then [] else [operand]
    {
      if operand.Conjunction? {
        var check := |staticOperands|;
        staticOperands := staticOperands + operand.statics;
        assert staticOperands[..check] == old(staticOperands);
        while check < |staticOperands|
          invariant |old(staticOperands)| <= check <= |staticOperands|
          invariant staticOperands == old(staticOperands) + operand.statics && dynamicOperands == old(dynamicOperands)
          invariant Cached() == ConjunctionResult(staticOperands[..check], dynamicOperands)
        {
          assert staticOperands[check] == operand.statics[check - |old(staticOperands)|];
          assert staticOperands[..check] + [staticOperands[check]] == staticOperands[..check + 1];
          ProcessStaticOperand(staticOperands[check], staticOperands[..check]);
          check := check + 1;
        }
        assert staticOperands[..check] == staticOperands;
        if operand.dynamics != [] {
          dynamicOperands := dynamicOperands + operand.dynamics;
          ProcessDynamicOperand(old(dynamicOperands));
        }
      } else if StaticOf(operand).Some? {
        staticOperands := staticOperands + [operand];
        ProcessStaticOperand(operand, old(staticOperands));
      } else {
        dynamicOperands := dynamicOperands + [operand];
        ProcessDynamicOperand(old(dynamicOperands));
      }
    }
  }

  class DisjunctionPredicate {
    var staticOperands: seq<Predicate>
    var dynamicOperands: seq<Predicate>
    var hasStaticResult: bool
    var staticResult: bool
    var isFresh: bool

    function Cached(): Option<bool>
      reads this
    {
      if hasStaticResult then Some(staticResult) else None
    }

    function Value(): Predicate
      reads this
    {
      Disjunction(staticOperands, dynamicOperands, Cached())
    }

    /** fresh_ says that no operand was added yet. */
    ghost predicate Valid()
      reads this
    {
      isFresh <==> staticOperands == [] && dynamicOperands == []
    }

    constructor ()
      ensures Valid() && Value() == EmptyOr()
    {
      staticOperands, dynamicOperands := [], [];
      hasStaticResult, staticResult, isFresh := true, true, true;
    }

    method ProcessStaticOperand(operand: Predicate, ghost seen: seq<Predicate>)
      requires StaticOf(operand).Some?
      requires Cached() == DisjunctionResult(seen, dynamicOperands)
      requires isFresh <==> seen == [] && dynamicOperands == []
      modifies `hasStaticResult, `staticResult, `isFresh
      ensures Cached() == DisjunctionResult(seen + [operand], dynamicOperands) && !isFresh
    {
      HasStaticAppend(seen, operand, true);
      if StaticOf(operand).value {
        hasStaticResult := true;
        staticResult := true;
      } else if isFresh {
        hasStaticResult := true;
        staticResult := false;
      }
      isFresh := false;
    }

    method ProcessDynamicOperand(ghost seen: seq<Predicate>)
      requires Cached() == DisjunctionResult(staticOperands, seen) && dynamicOperands != []
      requires isFresh <==> staticOperands == [] && seen == []
      modifies `hasStaticResult, `isFresh
      ensures Cached() == DisjunctionResult(staticOperands, dynamicOperands) && !isFresh
    {
      if hasStaticResult && !staticResult {
        hasStaticResult := false;
      } else if isFresh {
        hasStaticResult := false;
      }
      isFresh := false;
    }

    method AddPredicate(operand: Predicate)
      requires Valid() && Built(Value()) && Built(operand)
      modifies this
      ensures Valid() && Value() == WithDisjunct(old(Value()), operand)
      ensures staticOperands == old(staticOperands) +
              if operand.Disjunction? then operand.statics else if StaticOf(operand).Some? then [operand] else []
      ensures dynamicOperands == old(dynamicOperands) +
              if operand.Disjunction? then operand.dynamics else if StaticOf(operand).Some? then [] else [operand]
    {
      hide DisjunctionResult, HasStatic, StaticOf;
      if operand.Disjunction? {
        var check := |staticOperands|;
        staticOperands := staticOperands + operand.statics;
        assert staticOperands[..check] == old(staticOperands);
        while check < |staticOperands|
          invariant |old(staticOperands)| <= check <= |staticOperands|
          invariant staticOperands == old(staticOperands) + operand.statics && dynamicOperands == old(dynamicOperands)
          invariant Cached() == DisjunctionResult(staticOperands[..check], dynamicOperands)
          invariant isFresh <==> check == 0 && dynamicOperands == []
        {
          assert staticOperands[check] == operand.statics[check - |old(staticOperands)|];
          assert staticOperands[..check] + [staticOperands[check]] == staticOperands[..check + 1];
          ProcessStaticOperand(staticOperands[check], staticOperands[..check]);
          check := check + 1;
        }
        assert staticOperands[..check] == staticOperands;
        assert operand.dynamics == [] ==> dynamicOperands + operand.dynamics == dynamicOperands;
        if operand.dynamics != [] {
          dynamicOperands := dynamicOperands + operand.dynamics;
          ProcessDynamicOperand(old(dynamicOperands));
        }
      } else if StaticOf(operand).Some? {
        staticOperands := staticOperands + [operand];
        ProcessStaticOperand(operand, old(staticOperands));
      } else {
        dynamicOperands := dynamicOperands + [operand];
        ProcessDynamicOperand(old(dynamicOperands));
      }
    }
  }

  // ---- one added operand ----------------------------------------------------------------------

  lemma AddingKeepsBuilt(p: Predicate, e: Predicate)
    requires Built(p) && Built(e)
    ensures p.Conjunction? ==> Built(WithConjunct(p, e))
    ensures p.Disjunction? ==> Built(WithDisjunct(p, e))
  {
  }

  lemma HoldAppend(ps: seq<Predicate>, qs: seq<Predicate>, o: Oracle, row: Row)
    ensures AllHold(ps + qs, o, row) <==> AllHold(ps, o, row) && AllHold(qs, o, row)
    ensures AnyHolds(ps + qs, o, row) <==> AnyHolds(ps, o, row) || AnyHolds(qs, o, row)
  {
    var rs := ps + qs;
    assert forall i :: 0 <= i < |ps| ==> rs[i] == ps[i];
    assert forall i :: 0 <= i < |qs| ==> rs[|ps| + i] == qs[i];
  }

  lemma HoldOne(e: Predicate, o: Oracle, row: Row)
    ensures AllHold([e], o, row) == AnyHolds([e], o, row) == Meaning(e, o, row)
  {
    assert [e][0] == e;
  }

  /** Splicing a conjunction into a conjunction keeps the meaning of "and". */
  lemma AddedConjunct(p: Predicate, e: Predicate, o: Oracle, row: Row)
    requires p.Conjunction?
    ensures Meaning(WithConjunct(p, e), o, row) <==> Meaning(p, o, row) && Meaning(e, o, row)
  {
    if e.Conjunction? {
      HoldAppend(p.statics, e.statics, o, row);
      HoldAppend(p.dynamics, e.dynamics, o, row);
    } else {
      HoldAppend(p.statics, [e], o, row);
      HoldAppend(p.dynamics, [e], o, row);
      HoldOne(e, o, row);
    }
  }

  /** Splicing a disjunction keeps the meaning of "or", except that an empty one is lost. */
  lemma AddedDisjunct(p: Predicate, e: Predicate, o: Oracle, row: Row)
    requires p.Disjunction?
    ensures Meaning(WithDisjunct(p, e), o, row) <==>
            if EmptyDisjunction(p) then Meaning(e, o, row)
            else Meaning(p, o, row) || (!EmptyDisjunction(e) && Meaning(e, o, row))
  {
    if e.Disjunction? {
      HoldAppend(p.statics, e.statics, o, row);
      HoldAppend(p.dynamics, e.dynamics, o, row);
    } else {
      HoldAppend(p.statics, [e], o, row);
      HoldAppend(p.dynamics, [e], o, row);
      HoldOne(e, o, row);
    }
  }

  // ---- any number of added operands -----------------------------------------------------------

  /** The conjunction after adding es in order to a new one. */
  function ConjunctionOf(es: seq<Predicate>): (p: Predicate)
    ensures p.Conjunction?
  {
    if es == [] then EmptyConjunction()
    else WithConjunct(ConjunctionOf(es[..|es| - 1]), es[|es| - 1])
  }

  function DisjunctionOf(es: seq<Predicate>): (p: Predicate)
    ensures p.Disjunction?
  {
    if es == [] then EmptyOr()
    else WithDisjunct(DisjunctionOf(es[..|es| - 1]), es[|es| - 1])
  }

  predicate Operands(es: seq<Predicate>) {
    forall i :: 0 <= i < |es| ==> Built(es[i])
  }

  predicate NoneEmpty(es: seq<Predicate>) {
    forall i :: 0 <= i < |es| ==> !EmptyDisjunction(es[i])
  }

  predicate AllEmpty(es: seq<Predicate>) {
    forall i :: 0 <= i < |es| ==> EmptyDisjunction(es[i])
  }

  /** Whatever is added in whatever order, the cached results are those recomputed from the
      operand lists, on every level of the tree. */
  lemma {:induction false} AddingAllKeepsBuilt(es: seq<Predicate>)
    requires Operands(es)
    ensures Built(ConjunctionOf(es)) && Built(DisjunctionOf(es))
  {
    if es != [] {
      var front := es[..|es| - 1];
      AddingAllKeepsBuilt(front);
      AddingKeepsBuilt(ConjunctionOf(front), es[|es| - 1]);
      AddingKeepsBuilt(DisjunctionOf(front), es[|es| - 1]);
    }
  }

  /** A flattened conjunction means that all the operands added hold. */
  lemma {:induction false} FlattenedConjunction(es: seq<Predicate>, o: Oracle, row: Row)
    ensures Meaning(ConjunctionOf(es), o, row) <==> AllHold(es, o, row)
  {
    if es != [] {
      var front, e := es[..|es| - 1], es[|es| - 1];
      assert es == front + [e];
      FlattenedConjunction(front, o, row);
      AddedConjunct(ConjunctionOf(front), e, o, row);
      HoldAppend(front, [e], o, row);
      HoldOne(e, o, row);
    }
  }

  /** What a flattened disjunction means, for any operands: an added empty disjunction counts
      only if all the others are empty too. */
  lemma {:induction false} FlattenedDisjunction(es: seq<Predicate>, o: Oracle, row: Row)
    ensures EmptyDisjunction(DisjunctionOf(es)) <==> AllEmpty(es)
    ensures Meaning(DisjunctionOf(es), o, row) <==>
            AllEmpty(es) || exists i :: 0 <= i < |es| && !EmptyDisjunction(es[i]) && Meaning(es[i], o, row)
  {
    if es != [] {
      var n := |es| - 1;
      var front, e := es[..n], es[n];
      FlattenedDisjunction(front, o, row);
      AddedDisjunct(DisjunctionOf(front), e, o, row);
      assert forall i :: 0 <= i < n ==> front[i] == es[i];
      assert AllEmpty(es) <==> AllEmpty(front) && EmptyDisjunction(e);
    }
  }

  /** Adding e to any disjunction of non-empty operands, on any row, amounts to "or". */
  ghost predicate AddsItsMeaning(e: Predicate) {
    forall es, o, row {:trigger Meaning(DisjunctionOf(es + [e]), o, row)} | Operands(es) && NoneEmpty(es) ::
      Meaning(DisjunctionOf(es + [e]), o, row) <==> AnyHolds(es + [e], o, row)
  }

  /** Flattening keeps the meaning of "or" exactly for operands that are not empty disjunctions. */
  lemma OnlyEmptyDisjunctionsAreLost(e: Predicate)
    ensures AddsItsMeaning(e) <==> !EmptyDisjunction(e)
  {
    if EmptyDisjunction(e) {
      var o: Oracle, row: Row := (leaf, r) => true, [];
      var es := [False];
      FlattenedDisjunction(es + [e], o, row);
      assert !Meaning(DisjunctionOf(es + [e]), o, row);
      assert (es + [e])[1] == e && AnyHolds(es + [e], o, row);
    } else {
      forall es, o, row | Operands(es) && NoneEmpty(es)
        ensures Meaning(DisjunctionOf(es + [e]), o, row) <==> AnyHolds(es + [e], o, row)
      {
        FlattenedDisjunction(es + [e], o, row);
        assert (es + [e])[|es|] == e;
      }
    }
  }

  // ---- adding a predicate's own operands again --------------------------------------------------

  lemma PlainOperand(statics: seq<Predicate>, dynamics: seq<Predicate>, e: Predicate)
    ensures !e.Conjunction? ==>
              WithConjunct(Conjoined(statics, dynamics), e) ==
              if StaticOf(e).Some? then Conjoined(statics + [e], dynamics) else Conjoined(statics, dynamics + [e])
    ensures !e.Disjunction? ==>
              WithDisjunct(Disjoined(statics, dynamics), e) ==
              if StaticOf(e).Some? then Disjoined(statics + [e], dynamics) else Disjoined(statics, dynamics + [e])
  {
  }

  lemma NoOperands()
    ensures Conjoined([], []) == EmptyConjunction() && Disjoined([], []) == EmptyOr()
  {
  }

  /** Adding the operands of a built list predicate to a new one, static ones first, gives the
      same predicate again. */
  lemma {:induction false} ConjunctionRebuilds(statics: seq<Predicate>, dynamics: seq<Predicate>)
    requires AllBuilt(statics, true) && AllBuilt(dynamics, false)
    requires forall i :: 0 <= i < |statics| ==> !statics[i].Conjunction?
    requires forall i :: 0 <= i < |dynamics| ==> !dynamics[i].Conjunction?
    ensures ConjunctionOf(statics + dynamics) == Conjoined(statics, dynamics)
    decreases |statics| + |dynamics|
  {
    hide Built, HasStatic, StaticOf, Conjoined, WithConjunct;
    var es := statics + dynamics;
    if dynamics != [] {
      var front, e := dynamics[..|dynamics| - 1], dynamics[|dynamics| - 1];
      ConjunctionRebuilds(statics, front);
      PlainOperand(statics, front, e);
      assert es[..|es| - 1] == statics + front && es[|es| - 1] == e;
      assert front + [e] == dynamics;
    } else if statics != [] {
      var front, e := statics[..|statics| - 1], statics[|statics| - 1];
      ConjunctionRebuilds(front, []);
      PlainOperand(front, [], e);
      assert es[..|es| - 1] == front + [] && es[|es| - 1] == e;
      assert front + [e] == statics;
    } else {
      NoOperands();
    }
  }

  lemma {:induction false} DisjunctionRebuilds(statics: seq<Predicate>, dynamics: seq<Predicate>)
    requires AllBuilt(statics, true) && AllBuilt(dynamics, false)
    requires forall i :: 0 <= i < |statics| ==> !statics[i].Disjunction?
    requires forall i :: 0 <= i < |dynamics| ==> !dynamics[i].Disjunction?
    ensures DisjunctionOf(statics + dynamics) == Disjoined(statics, dynamics)
    decreases |statics| + |dynamics|
  {
    hide Built, HasStatic, StaticOf, Disjoined, WithDisjunct;
    var es := statics + dynamics;
    if dynamics != [] {
      var front, e := dynamics[..|dynamics| - 1], dynamics[|dynamics| - 1];
      DisjunctionRebuilds(statics, front);
      PlainOperand(statics, front, e);
      assert es[..|es| - 1] == statics + front && es[|es| - 1] == e;
      assert front + [e] == dynamics;
    } else if statics != [] {
      var front, e := statics[..|statics| - 1], statics[|statics| - 1];
      DisjunctionRebuilds(front, []);
      PlainOperand(front, [], e);
      assert es[..|es| - 1] == front + [] && es[|es| - 1] == e;
      assert front + [e] == statics;
    } else {
      NoOperands();
    }
  }
}
