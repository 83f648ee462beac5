/** Serialising predicates and rebuilding them (expressions/ExpressionFactories.cpp, and getProto()
    and clone() of the predicate classes). */
module PredicateProtos {
  import opened Options
  import opened Predicates
  import opened PredicateBuilding

  /** The protocol buffer as received: required parts may be missing. `BadProto` has an unknown
      type or is not initialised. */
  datatype Proto =
    | TrueProto
    | FalseProto
    | ComparisonProto(comparison: Option<Leaf>)
    | NegationProto(operand: Option<Proto>)
    | ConjunctionProto(operands: seq<Proto>)
    | DisjunctionProto(operands: seq<Proto>)
    | BadProto

  predicate ProtoIsValid(m: Proto) {
    match m
    case TrueProto => true
    case FalseProto => true
    case ComparisonProto(comparison) => comparison.Some?
    case NegationProto(operand) => operand.Some? && ProtoIsValid(operand.value)
    case ConjunctionProto(operands) => forall i :: 0 <= i < |operands| ==> ProtoIsValid(operands[i])
    case DisjunctionProto(operands) => forall i :: 0 <= i < |operands| ==> ProtoIsValid(operands[i])
    case BadProto => false
  }

  predicate AllValid(ms: seq<Proto>) {
    forall i :: 0 <= i < |ms| ==> ProtoIsValid(ms[i])
  }

  /** What a description says, as "not", "and" and "or"; an "or" of nothing is true. */
  predicate ProtoMeaning(m: Proto, o: Oracle, row: Row)
    requires ProtoIsValid(m)
  {
    match m
    case TrueProto => true
    case FalseProto => false
    case ComparisonProto(leaf) => Meaning(Comparison(leaf.value), o, row)
    case NegationProto(operand) => !ProtoMeaning(operand.value, o, row)
    case ConjunctionProto(operands) => forall i :: 0 <= i < |operands| ==> ProtoMeaning(operands[i], o, row)
    case DisjunctionProto(operands) =>
      operands == [] || exists i :: 0 <= i < |operands| && ProtoMeaning(operands[i], o, row)
  }

  // getProto()
  function ProtoOf(p: Predicate): Proto {
    match p
    case True => TrueProto
    case False => FalseProto
    case Comparison(leaf) => ComparisonProto(Some(leaf))
    case Negation(q, _) => NegationProto(Some(ProtoOf(q)))
    case Conjunction(statics, dynamics, _) => ConjunctionProto(ProtosOf(statics) + ProtosOf(dynamics))
    case Disjunction(statics, dynamics, _) => DisjunctionProto(ProtosOf(statics) + ProtosOf(dynamics))
  }

  function ProtosOf(ps: seq<Predicate>): (ms: seq<Proto>)
    ensures |ms| == |ps|
  {
    seq(|ps|, i requires 0 <= i < |ps| => ProtoOf(ps[i]))
  }

  /** A list predicate is described by its static operands, then its dynamic ones, in order. */
  lemma DescribedInOrder(p: Predicate, i: nat)
    requires (p.Conjunction? || p.Disjunction?) && i < |p.statics| + |p.dynamics|
    ensures ProtoOf(p).ConjunctionProto? <==> p.Conjunction?
    ensures ProtoOf(p).DisjunctionProto? <==> p.Disjunction?
    ensures var operands := ProtoOf(p).operands;
            && |operands| == |p.statics| + |p.dynamics|
            && operands[i] == ProtoOf(if i < |p.statics| then p.statics[i] else p.dynamics[i - |p.statics|])
  {
  }

  /** The predicate rebuilt from a description, operand by operand. */
  function Rebuilt(m: Proto): Predicate
    requires ProtoIsValid(m)
  {
    match m
    case TrueProto => True
    case FalseProto => False
    case ComparisonProto(leaf) => Comparison(leaf.value)
    case NegationProto(operand) => NegatePredicate(Rebuilt(operand.value))
    case ConjunctionProto(operands) => ConjunctionOf(RebuiltAll(operands))
    case DisjunctionProto(operands) => DisjunctionOf(RebuiltAll(operands))
  }

  function RebuiltAll(ms: seq<Proto>): (ps: seq<Predicate>)
    requires AllValid(ms)
    ensures |ps| == |ms|
  {
    seq(|ms|, i requires 0 <= i < |ms| => Rebuilt(ms[i]))
  }

  // ---- what rebuilding yields -------------------------------------------------------------------

  lemma {:induction false} AddingKeepsReduced(es: seq<Predicate>)
    requires AllReduced(es)
    ensures Reduced(ConjunctionOf(es)) && Reduced(DisjunctionOf(es))
  {
    if es != [] {
      AddingKeepsReduced(es[..|es| - 1]);
    }
  }

  /** Every valid description rebuilds to a tree with right cached results, no list predicate
      inside one of its own kind, and no double negation. */
  lemma {:induction false} RebuiltIsBuilt(m: Proto)
    requires ProtoIsValid(m)
    ensures Built(Rebuilt(m)) && Reduced(Rebuilt(m))
  {
    match m
    case TrueProto =>
    case FalseProto =>
    case ComparisonProto(_) =>
    case NegationProto(operand) => RebuiltIsBuilt(operand.value);
    case ConjunctionProto(operands) => RebuiltAllAreBuilt(operands);
    case DisjunctionProto(operands) => RebuiltAllAreBuilt(operands);
  }

  lemma {:induction false} RebuiltAllAreBuilt(ms: seq<Proto>)
    requires AllValid(ms)
    ensures Operands(RebuiltAll(ms)) && AllReduced(RebuiltAll(ms))
    ensures Built(ConjunctionOf(RebuiltAll(ms))) && Reduced(ConjunctionOf(RebuiltAll(ms)))
    ensures Built(DisjunctionOf(RebuiltAll(ms))) && Reduced(DisjunctionOf(RebuiltAll(ms)))
  {
    forall i | 0 <= i < |ms|
      ensures Built(Rebuilt(ms[i])) && Reduced(Rebuilt(ms[i]))
    {
      RebuiltIsBuilt(ms[i]);
    }
    AddingAllKeepsBuilt(RebuiltAll(ms));
    AddingKeepsReduced(RebuiltAll(ms));
  }

  // ---- meaning --------------------------------------------------------------------------------

  /** Descriptions that rebuild to the empty disjunction. */
  predicate Vanishes(m: Proto) {
    match m
    case DisjunctionProto(operands) => forall i :: 0 <= i < |operands| ==> Vanishes(operands[i])
    case NegationProto(Some(NegationProto(Some(inner)))) => Vanishes(inner)
    case _ => false
  }

  predicate NoneVanish(ms: seq<Proto>) {
    forall i :: 0 <= i < |ms| ==> !Vanishes(ms[i])
  }

  predicate AllVanish(ms: seq<Proto>) {
    forall i :: 0 <= i < |ms| ==> Vanishes(ms[i])
  }

  /** No disjunction, at any depth, has an operand that vanishes beside one that does not. */
  predicate NothingLost(m: Proto) {
    match m
    case NegationProto(operand) => operand.Some? ==> NothingLost(operand.value)
    case ConjunctionProto(operands) => forall i :: 0 <= i < |operands| ==> NothingLost(operands[i])
    case DisjunctionProto(operands) =>
      && (forall i :: 0 <= i < |operands| ==> NothingLost(operands[i]))
      && (NoneVanish(operands) || AllVanish(operands))
    case _ => true
  }

  lemma {:induction false} VanishingIsEmpty(m: Proto)
    requires ProtoIsValid(m)
    ensures EmptyDisjunction(Rebuilt(m)) <==> Vanishes(m)
  {
    match m
    case DisjunctionProto(operands) =>
      forall i | 0 <= i < |operands|
        ensures EmptyDisjunction(RebuiltAll(operands)[i]) <==> Vanishes(operands[i])
      {
        VanishingIsEmpty(operands[i]);
      }
      FlattenedDisjunction(RebuiltAll(operands), (leaf, row) => true, []);
    case NegationProto(operand) =>
      RebuiltIsBuilt(operand.value);
      if operand.value.NegationProto? {
        VanishingIsEmpty(operand.value.operand.value);
        RebuiltIsBuilt(operand.value.operand.value);
      }
    case _ =>
  }

  /** Rebuilding a disjunction whose operands each keep their meaning: exactly when the
      disjunction keeps its own on a row. */
  lemma RebuiltDisjunction(ms: seq<Proto>, o: Oracle, row: Row)
    requires AllValid(ms)
    requires forall i :: 0 <= i < |ms| ==> Meaning(Rebuilt(ms[i]), o, row) == ProtoMeaning(ms[i], o, row)
    ensures Meaning(Rebuilt(DisjunctionProto(ms)), o, row) == ProtoMeaning(DisjunctionProto(ms), o, row)
            <==> NoneVanish(ms) || AllVanish(ms) ||
                 exists i :: 0 <= i < |ms| && !Vanishes(ms[i]) && ProtoMeaning(ms[i], o, row)
  {
    var es := RebuiltAll(ms);
    forall i | 0 <= i < |ms|
      ensures EmptyDisjunction(es[i]) <==> Vanishes(ms[i])
      ensures Meaning(es[i], o, row) == ProtoMeaning(ms[i], o, row)
    {
      VanishingIsEmpty(ms[i]);
    }
    FlattenedDisjunction(es, o, row);
    assert AllEmpty(es) <==> AllVanish(ms);
  }

  /** Rebuilding keeps the meaning on every row, whatever is reordered, spliced or cancelled. */
  lemma {:induction false} RebuiltMeansTheSame(m: Proto, o: Oracle, row: Row)
    requires ProtoIsValid(m) && NothingLost(m)
    ensures Meaning(Rebuilt(m), o, row) == ProtoMeaning(m, o, row)
  {
    match m
    case TrueProto =>
    case FalseProto =>
    case ComparisonProto(_) =>
    case NegationProto(operand) => RebuiltMeansTheSame(operand.value, o, row);
    case ConjunctionProto(operands) =>
      forall i | 0 <= i < |operands|
        ensures Meaning(RebuiltAll(operands)[i], o, row) == ProtoMeaning(operands[i], o, row)
      {
        RebuiltMeansTheSame(operands[i], o, row);
      }
      FlattenedConjunction(RebuiltAll(operands), o, row);
    case DisjunctionProto(operands) =>
      forall i | 0 <= i < |operands|
        ensures Meaning(Rebuilt(operands[i]), o, row) == ProtoMeaning(operands[i], o, row)
      {
        RebuiltMeansTheSame(operands[i], o, row);
      }
      RebuiltDisjunction(operands, o, row);
  }

  predicate KeepMeaning(ms: seq<Proto>) {
    forall i :: 0 <= i < |ms| ==> ProtoIsValid(ms[i]) && NothingLost(ms[i])
  }

  /** Rebuilding keeps the meaning of every disjunction to which m is added. */
  ghost predicate SafeOperand(m: Proto)
    requires ProtoIsValid(m)
  {
    forall ms, o, row {:trigger Meaning(Rebuilt(DisjunctionProto(ms + [m])), o, row)} |
        KeepMeaning(ms) && NoneVanish(ms) ::
      Meaning(Rebuilt(DisjunctionProto(ms + [m])), o, row) == ProtoMeaning(DisjunctionProto(ms + [m]), o, row)
  }

  /** Exactly the operands that do not vanish are safe below a disjunction. */
  lemma SafeExactlyWhenNotVanishing(m: Proto)
    requires ProtoIsValid(m) && NothingLost(m)
    ensures SafeOperand(m) <==> !Vanishes(m)
  {
    if Vanishes(m) {
      var o: Oracle, row: Row := (leaf, r) => true, [];
      VanishingIsLost(m, o, row);
      assert !SafeOperand(m);
    } else {
      forall ms, o, row | KeepMeaning(ms) && NoneVanish(ms)
        ensures Meaning(Rebuilt(DisjunctionProto(ms + [m])), o, row) ==
                ProtoMeaning(DisjunctionProto(ms + [m]), o, row)
      {
        SafeBeside(ms, m, o, row);
      }
    }
  }

  lemma SafeBeside(ms: seq<Proto>, m: Proto, o: Oracle, row: Row)
    requires KeepMeaning(ms) && NoneVanish(ms) && ProtoIsValid(m) && NothingLost(m) && !Vanishes(m)
    ensures ProtoIsValid(DisjunctionProto(ms + [m]))
    ensures Meaning(Rebuilt(DisjunctionProto(ms + [m])), o, row) ==
            ProtoMeaning(DisjunctionProto(ms + [m]), o, row)
  {
    hide Meaning, Rebuilt, Vanishes;
    RebuiltMeansTheSame(DisjunctionProto(ms + [m]), o, row);
  }

  lemma VanishingIsLost(m: Proto, o: Oracle, row: Row)
    requires ProtoIsValid(m) && NothingLost(m) && Vanishes(m)
    ensures KeepMeaning([FalseProto]) && NoneVanish([FalseProto])
    ensures ProtoIsValid(DisjunctionProto([FalseProto] + [m]))
    ensures Meaning(Rebuilt(DisjunctionProto([FalseProto] + [m])), o, row) !=
            ProtoMeaning(DisjunctionProto([FalseProto] + [m]), o, row)
  {
    var ms := [FalseProto] + [m];
    assert ms[0] == FalseProto && ms[1] == m;
    NeverHolds(o, row);
    VanishingIsEmpty(m);
    RebuiltMeansTheSame(m, o, row);
    EmptyMeansTrue(Rebuilt(m), o, row);
    hide Meaning, Rebuilt, EmptyDisjunction, Vanishes, NothingLost;
    RebuiltDisjunction(ms, o, row);
    SecondHolds(ms, o, row);
  }

  lemma SecondHolds(ms: seq<Proto>, o: Oracle, row: Row)
    requires |ms| == 2 && AllValid(ms) && ProtoMeaning(ms[1], o, row)
    ensures ProtoMeaning(DisjunctionProto(ms), o, row)
  {
  }

  lemma NeverHolds(o: Oracle, row: Row)
    ensures ProtoIsValid(FalseProto) && !ProtoMeaning(FalseProto, o, row)
    ensures !Meaning(Rebuilt(FalseProto), o, row) && !Vanishes(FalseProto)
  {
  }

  lemma EmptyMeansTrue(p: Predicate, o: Oracle, row: Row)
    requires EmptyDisjunction(p)
    ensures Meaning(p, o, row)
  {
  }

  // ---- serialising, then rebuilding ------------------------------------------------------------

  /** getProto() yields a valid description with the predicate's own meaning. */
  lemma {:induction false} ProtoKeepsMeaning(p: Predicate, o: Oracle, row: Row)
    ensures ProtoIsValid(ProtoOf(p))
    ensures ProtoMeaning(ProtoOf(p), o, row) == Meaning(p, o, row)
  {
    match p
    case True =>
    case False =>
    case Comparison(_) =>
    case Negation(q, _) => ProtoKeepsMeaning(q, o, row);
    case Conjunction(statics, dynamics, _) =>
      ProtosKeepMeaning(statics, o, row);
      ProtosKeepMeaning(dynamics, o, row);
      JoinedProtos(statics, dynamics, o, row);
    case Disjunction(statics, dynamics, _) =>
      ProtosKeepMeaning(statics, o, row);
      ProtosKeepMeaning(dynamics, o, row);
      JoinedProtos(statics, dynamics, o, row);
  }

  predicate SameMeaning(ms: seq<Proto>, ps: seq<Predicate>, o: Oracle, row: Row) {
    && |ms| == |ps| && AllValid(ms)
    && forall i :: 0 <= i < |ps| ==> ProtoMeaning(ms[i], o, row) == Meaning(ps[i], o, row)
  }

  lemma {:induction false} ProtosKeepMeaning(ps: seq<Predicate>, o: Oracle, row: Row)
    ensures SameMeaning(ProtosOf(ps), ps, o, row)
  {
    forall i | 0 <= i < |ps|
      ensures ProtoIsValid(ProtoOf(ps[i])) && ProtoMeaning(ProtoOf(ps[i]), o, row) == Meaning(ps[i], o, row)
    {
      ProtoKeepsMeaning(ps[i], o, row);
    }
  }

  lemma JoinedProtos(ps: seq<Predicate>, qs: seq<Predicate>, o: Oracle, row: Row)
    requires SameMeaning(ProtosOf(ps), ps, o, row) && SameMeaning(ProtosOf(qs), qs, o, row)
    ensures var ms := ProtosOf(ps) + ProtosOf(qs);
            && AllValid(ms)
            && (ProtoMeaning(ConjunctionProto(ms), o, row) <==> AllHold(ps, o, row) && AllHold(qs, o, row))
            && (ProtoMeaning(DisjunctionProto(ms), o, row) <==>
                  (ps == [] && qs == []) || AnyHolds(ps, o, row) || AnyHolds(qs, o, row))
  {
    var ms, es := ProtosOf(ps) + ProtosOf(qs), ps + qs;
    hide ProtosOf;
    assert forall i :: 0 <= i < |ms| ==> ProtoMeaning(ms[i], o, row) == Meaning(es[i], o, row);
    HoldAppend(ps, qs, o, row);
  }

  /** Without double negations, serialising and rebuilding gives back the very same predicate. */
  lemma {:induction false} ProtoRoundTrip(p: Predicate)
    requires Built(p) && Reduced(p)
    ensures ProtoIsValid(ProtoOf(p)) && Rebuilt(ProtoOf(p)) == p
  {
    ProtoKeepsMeaning(p, (leaf, row) => true, []);
    match p
    case True =>
    case False =>
    case Comparison(_) =>
    case Negation(q, _) => ProtoRoundTrip(q);
    case Conjunction(statics, dynamics, _) =>
      ListRoundTrip(statics);
      ListRoundTrip(dynamics);
      RebuiltAppend(ProtosOf(statics), ProtosOf(dynamics));
      ConjunctionRebuilds(statics, dynamics);
    case Disjunction(statics, dynamics, _) =>
      ListRoundTrip(statics);
      ListRoundTrip(dynamics);
      RebuiltAppend(ProtosOf(statics), ProtosOf(dynamics));
      DisjunctionRebuilds(statics, dynamics);
  }

  lemma RebuiltAppend(ms: seq<Proto>, ns: seq<Proto>)
    requires AllValid(ms) && AllValid(ns)
    ensures AllValid(ms + ns) && RebuiltAll(ms + ns) == RebuiltAll(ms) + RebuiltAll(ns)
  {
  }

  lemma {:induction false} ListRoundTrip(ps: seq<Predicate>)
    requires AllReduced(ps) && forall i :: 0 <= i < |ps| ==> Built(ps[i])
    ensures AllValid(ProtosOf(ps)) && RebuiltAll(ProtosOf(ps)) == ps
  {
    forall i | 0 <= i < |ps|
      ensures ProtoIsValid(ProtoOf(ps[i])) && Rebuilt(ProtoOf(ps[i])) == ps[i]
    {
      ProtoRoundTrip(ps[i]);
    }
  }

  /** So the round trip is exact precisely for predicates without a double negation. */
  lemma RoundTripExactlyWhenReduced(p: Predicate)
    requires Built(p)
    ensures ProtoIsValid(ProtoOf(p)) && (Rebuilt(ProtoOf(p)) == p <==> Reduced(p))
  {
    ProtoKeepsMeaning(p, (leaf, row) => true, []);
    RebuiltIsBuilt(ProtoOf(p));
    if Reduced(p) {
      ProtoRoundTrip(p);
    }
  }

  /** One pass through a description reaches a fixed point. */
  lemma RebuildingIsIdempotent(m: Proto)
    requires ProtoIsValid(m)
    ensures ProtoIsValid(ProtoOf(Rebuilt(m))) && Rebuilt(ProtoOf(Rebuilt(m))) == Rebuilt(m)
  {
    RebuiltIsBuilt(m);
    ProtoRoundTrip(Rebuilt(m));
  }

  /** A predicate that the NegationPredicate constructor can build, `false or !!Or()`, means
      something else once rebuilt: its second operand cancels to Or(), which is then lost. */
  lemma LostOperand(o: Oracle, row: Row)
    ensures var p := Disjoined([False, Negated(Negated(EmptyOr()))], []);
            && Built(p) && ProtoIsValid(ProtoOf(p))
            && Meaning(p, o, row) && !Meaning(Rebuilt(ProtoOf(p)), o, row)
  {
    var e := Negated(Negated(EmptyOr()));
    var ms := [FalseProto, NegationProto(Some(NegationProto(Some(DisjunctionProto([])))))];
    LostFacts(e, o, row);
    LostProto([False, e], ms);
    ProtoKeepsMeaning(Disjoined([False, e], []), o, row);
    VanishingIsLost(ms[1], o, row);
    assert ms == [FalseProto] + [ms[1]];
    hide Built, Meaning, Disjoined, Rebuilt, Negated;
  }

  lemma LostFacts(e: Predicate, o: Oracle, row: Row)
    requires e == Negated(Negated(EmptyOr()))
    ensures Built(Disjoined([False, e], [])) && Meaning(Disjoined([False, e], []), o, row)
  {
    assert [False, e][1] == e && Meaning(e, o, row);
    assert Built(EmptyOr()) && Built(e);
  }

  lemma LostProto(es: seq<Predicate>, ms: seq<Proto>)
    requires es == [False, Negated(Negated(EmptyOr()))]
    requires ms == [FalseProto, NegationProto(Some(NegationProto(Some(DisjunctionProto([])))))]
    ensures ProtoOf(Disjoined(es, [])) == DisjunctionProto(ms)
  {
    assert ProtoOf(EmptyOr()) == DisjunctionProto([]);
    assert ProtosOf(es) == ms;
  }

  // ---- the operations as the source carries them out ----------------------------------------

  method ReconstructFromProto(m: Proto) returns (p: Predicate)
    requires ProtoIsValid(m)
    ensures p == Rebuilt(m)
  {
    match m
    case TrueProto => p := True;
    case FalseProto => p := False;
    case ComparisonProto(comparison) => p := Comparison(comparison.value);
    case NegationProto(operand) =>
      var inner := ReconstructFromProto(operand.value);
      p := NegatePredicate(inner);
    case ConjunctionProto(operands) => p := ReconstructConjunction(operands);
    case DisjunctionProto(operands) => p := ReconstructDisjunction(operands);
    case BadProto => assert false;
  }

  method ReconstructConjunction(operands: seq<Proto>) returns (p: Predicate)
    requires AllValid(operands)
    ensures p == ConjunctionOf(RebuiltAll(operands))
  {
    ghost var es := RebuiltAll(operands);
    RebuiltAllAreBuilt(operands);
    var list := new ConjunctionPredicate();
    for i := 0 to |operands|
      invariant list.Value() == ConjunctionOf(es[..i])
    {
      var operand := ReconstructFromProto(operands[i]);
      NextOperand(es, i);
      list.AddPredicate(operand);
    }
    assert es[..|operands|] == es;
    p := list.Value();
  }

  method ReconstructDisjunction(operands: seq<Proto>) returns (p: Predicate)
    requires AllValid(operands)
    ensures p == DisjunctionOf(RebuiltAll(operands))
  {
    ghost var es := RebuiltAll(operands);
    RebuiltAllAreBuilt(operands);
    var list := new DisjunctionPredicate();
    for i := 0 to |operands|
      invariant list.Valid() && list.Value() == DisjunctionOf(es[..i])
    {
      var operand := ReconstructFromProto(operands[i]);
      NextOperand(es, i);
      list.AddPredicate(operand);
    }
    assert es[..|operands|] == es;
    p := list.Value();
  }

  lemma NextOperand(es: seq<Predicate>, i: nat)
    requires Operands(es) && i < |es|
    ensures Built(ConjunctionOf(es[..i])) && Built(DisjunctionOf(es[..i]))
    ensures ConjunctionOf(es[..i + 1]) == WithConjunct(ConjunctionOf(es[..i]), es[i])
    ensures DisjunctionOf(es[..i + 1]) == WithDisjunct(DisjunctionOf(es[..i]), es[i])
  {
    hide Built, WithConjunct, WithDisjunct;
    AddingAllKeepsBuilt(es[..i]);
    assert es[..i + 1][..i] == es[..i];
  }

  // clone(): a list predicate adds the clones of its static, then of its dynamic operands
  method Clone(p: Predicate) returns (copy: Predicate)
    requires Built(p)
    ensures copy == p
  {
    match p
    case True => copy := True;
    case False => copy := False;
    case Comparison(leaf) => copy := Comparison(leaf);
    case Negation(q, _) =>
      var inner := Clone(q);
      copy := Negated(inner);
    case Conjunction(statics, dynamics, _) =>
      var list := new ConjunctionPredicate();
      assert [] + statics == statics;
      AddClonesToConjunction(list, statics, []);
      AddClonesToConjunction(list, dynamics, statics);
      ConjunctionRebuilds(statics, dynamics);
      copy := list.Value();
    case Disjunction(statics, dynamics, _) =>
      var list := new DisjunctionPredicate();
      assert [] + statics == statics;
      AddClonesToDisjunction(list, statics, []);
      AddClonesToDisjunction(list, dynamics, statics);
      DisjunctionRebuilds(statics, dynamics);
      copy := list.Value();
  }

  method AddClonesToConjunction(list: ConjunctionPredicate, operands: seq<Predicate>, ghost before: seq<Predicate>)
    requires list.Value() == ConjunctionOf(before) && Operands(before) && Operands(operands)
    modifies list
    ensures list.Value() == ConjunctionOf(before + operands)
    decreases operands
  {
    hide Built, ConjunctionOf, WithConjunct;
    ghost var es := before + operands;
    assert es[..|before|] == before;
    for i := 0 to |operands|
      invariant list.Value() == ConjunctionOf(es[..|before| + i])
    {
      var operand := Clone(operands[i]);
      NextOperand(es, |before| + i);
      list.AddPredicate(operand);
    }
    assert es[..|es|] == es;
  }

  method AddClonesToDisjunction(list: DisjunctionPredicate, operands: seq<Predicate>, ghost before: seq<Predicate>)
    requires list.Valid() && list.Value() == DisjunctionOf(before) && Operands(before) && Operands(operands)
    modifies list
    ensures list.Valid() && list.Value() == DisjunctionOf(before + operands)
    decreases operands
  {
    hide Built, DisjunctionOf, WithDisjunct;
    ghost var es := before + operands;
    assert es[..|before|] == before;
    for i := 0 to |operands|
      invariant list.Valid() && list.Value() == DisjunctionOf(es[..|before| + i])
    {
      var operand := Clone(operands[i]);
      NextOperand(es, |before| + i);
      list.AddPredicate(operand);
    }
    assert es[..|es|] == es;
  }
}
