/** The select operator (streaming_operators/StreamingSelectOperator.cpp): predicates are chained
    through the filter of getAllMatches(), and the rows that remain are projected. */
module StreamingSelect {
  import opened BitVectorSpec
  import opened BitVectors
  import opened TupleIds
  import opened Options
  import opened Predicates
  import opened PredicateMatching

  /** The value of a scalar expression, by its number, on a row. */
  type Evaluator = (nat, Row) -> Value

  datatype QuerySpec =
    | SelectSpec(predicates: seq<Predicate>, simpleProjection: bool, attributes: seq<nat>, expressions: seq<nat>)
    | OtherSpec

  /** The rows on which all predicates hold, in the order of the input. */
  function Selected(ps: seq<Predicate>, o: Oracle, rows: seq<Row>): seq<Row> {
    if rows == [] then []
    else
      var n := |rows| - 1;
      Selected(ps, o, rows[..n]) + if AllHold(ps, o, rows[n]) then [rows[n]] else []
  }

  predicate HasAttributes(attributes: seq<nat>, row: Row) {
    forall i :: 0 <= i < |attributes| ==> attributes[i] < |row|
  }

  function Projected(attributes: seq<nat>, row: Row): Row
    requires HasAttributes(attributes, row)
  {
    seq(|attributes|, i requires 0 <= i < |attributes| => row[attributes[i]])
  }

  function Evaluated(expressions: seq<nat>, e: Evaluator, row: Row): Row {
    seq(|expressions|, i requires 0 <= i < |expressions| => e(expressions[i], row))
  }

  predicate RowsHave(attributes: seq<nat>, rows: seq<Row>) {
    forall r :: 0 <= r < |rows| ==> HasAttributes(attributes, rows[r])
  }

  lemma {:induction false} SelectedHave(ps: seq<Predicate>, o: Oracle, rows: seq<Row>, attributes: seq<nat>)
    requires RowsHave(attributes, rows)
    ensures RowsHave(attributes, Selected(ps, o, rows))
  {
    if rows != [] {
      SelectedHave(ps, o, rows[..|rows| - 1], attributes);
    }
  }

  /** What the operator emits for one input; a select list without expressions emits nothing. */
  function Emitted(spec: QuerySpec, o: Oracle, e: Evaluator, rows: seq<Row>): seq<Row>
    requires spec.SelectSpec? && (spec.simpleProjection ==> RowsHave(spec.attributes, rows))
  {
    var kept := Selected(spec.predicates, o, rows);
    if spec.simpleProjection then
      SelectedHave(spec.predicates, o, rows, spec.attributes);
      seq(|kept|, r requires 0 <= r < |kept| && RowsHave(spec.attributes, kept) => Projected(spec.attributes, kept[r]))
    else if spec.expressions == [] then []
    else seq(|kept|, r requires 0 <= r < |kept| => Evaluated(spec.expressions, e, kept[r]))
  }

  // ---- positions and rows -------------------------------------------------------------------

  function AllTrue(n: nat): seq<bool> {
    seq(n, _ => true)
  }

  predicate Within(ids: seq<nat>, rows: seq<Row>) {
    forall i :: 0 <= i < |ids| ==> ids[i] < |rows|
  }

  function RowsAt(rows: seq<Row>, ids: seq<nat>): seq<Row>
    requires Within(ids, rows)
  {
    seq(|ids|, i requires 0 <= i < |ids| => rows[ids[i]])
  }

  /** The positions set in the final filter are those of the selected rows. */
  lemma {:induction false} FilteredRows(ps: seq<Predicate>, o: Oracle, rows: seq<Row>, b: seq<bool>)
    requires |b| == |rows| && forall t :: 0 <= t < |rows| ==> b[t] == AllHold(ps, o, rows[t])
    ensures Within(Ids(b), rows) && RowsAt(rows, Ids(b)) == Selected(ps, o, rows)
  {
    if rows != [] {
      var n := |rows| - 1;
      FilteredRows(ps, o, rows[..n], b[..n]);
      assert Ids(b) == Ids(b[..n]) + if b[n] then [n] else [];
      hide Ids, AllHold;
      RowsJoined(rows, Ids(b[..n]), b[n]);
    }
  }

  lemma RowsJoined(rows: seq<Row>, ids: seq<nat>, last: bool)
    requires rows != [] && Within(ids, rows[..|rows| - 1])
    ensures var n := |rows| - 1;
            var all := ids + if last then [n] else [];
            && Within(all, rows)
            && RowsAt(rows, all) == RowsAt(rows[..n], ids) + if last then [rows[n]] else []
  {
  }

  lemma ChainedByOne(ps: seq<Predicate>, i: nat, o: Oracle, rows: seq<Row>, base: seq<bool>)
    requires i < |ps| && |base| == |rows|
    ensures Accepted(ps[i], o, rows, AcceptedByAll(ps[..i], o, rows, base)) == AcceptedByAll(ps[..i + 1], o, rows, base)
  {
    forall t | 0 <= t < |rows|
      ensures AllHold(ps[..i + 1], o, rows[t]) <==> AllHold(ps[..i], o, rows[t]) && Meaning(ps[i], o, rows[t])
    {
      HoldNext(ps, i, o, rows[t]);
    }
    hide AllHold, Meaning;
  }

  lemma SelectedPositions(ps: seq<Predicate>, o: Oracle, rows: seq<Row>) returns (ids: seq<nat>)
    ensures Within(ids, rows) && RowsAt(rows, ids) == Selected(ps, o, rows)
    ensures forall r, q :: 0 <= r < q < |ids| ==> ids[r] < ids[q]
    ensures forall t :: 0 <= t < |rows| ==> (t in ids <==> forall i :: 0 <= i < |ps| ==> Meaning(ps[i], o, rows[t]))
  {
    var b := AcceptedByAll(ps, o, rows, AllTrue(|rows|));
    FinalFilter(ps, o, rows);
    ids := Ids(b);
    IdsAreTheSetPositions(b);
    hide Ids, Selected, RowsAt, Meaning;
    forall t | 0 <= t < |rows|
      ensures t in ids <==> forall i :: 0 <= i < |ps| ==> Meaning(ps[i], o, rows[t])
    {
      assert b[t] == AllHold(ps, o, rows[t]);
    }
  }

  /** The output of one input, value by value: a row for each row on which all predicates hold. */
  predicate Made(spec: QuerySpec, o: Oracle, e: Evaluator, rows: seq<Row>, ids: seq<nat>, output: seq<Row>)
    requires spec.SelectSpec? && (spec.simpleProjection ==> RowsHave(spec.attributes, rows))
  {
    && Within(ids, rows) && (forall r, q :: 0 <= r < q < |ids| ==> ids[r] < ids[q])
    && (forall t :: 0 <= t < |rows| ==>
          (t in ids <==> forall i :: 0 <= i < |spec.predicates| ==> Meaning(spec.predicates[i], o, rows[t])))
    && if spec.simpleProjection then
         && |output| == |ids|
         && (forall r :: 0 <= r < |output| ==> |output[r]| == |spec.attributes|)
         && (forall r, i :: 0 <= r < |output| && 0 <= i < |spec.attributes| ==>
               output[r][i] == rows[ids[r]][spec.attributes[i]])
       else
         && |output| == (if spec.expressions == [] then 0 else |ids|)
         && (forall r :: 0 <= r < |output| ==> |output[r]| == |spec.expressions|)
         && (forall r, i :: 0 <= r < |output| && 0 <= i < |spec.expressions| ==>
               output[r][i] == e(spec.expressions[i], rows[ids[r]]))
  }

  predicate AllHaveAttributes(spec: QuerySpec, inputs: seq<seq<Row>>)
    requires spec.SelectSpec?
  {
    forall k :: 0 <= k < |inputs| ==> (spec.simpleProjection ==> RowsHave(spec.attributes, inputs[k]))
  }

  lemma AllMade(spec: QuerySpec, o: Oracle, e: Evaluator, inputs: seq<seq<Row>>, picked: seq<seq<nat>>,
                outputs: seq<seq<Row>>)
    requires spec.SelectSpec? && AllHaveAttributes(spec, inputs) && |inputs| == |picked| == |outputs|
    requires forall k :: 0 <= k < |inputs| ==> Made(spec, o, e, inputs[k], picked[k], outputs[k])
    ensures forall k, r, q :: 0 <= k < |inputs| && 0 <= r < q < |picked[k]| ==> picked[k][r] < picked[k][q]
    ensures forall k, t :: 0 <= k < |inputs| && 0 <= t < |inputs[k]| ==>
              (t in picked[k] <==>
               forall i :: 0 <= i < |spec.predicates| ==> Meaning(spec.predicates[i], o, inputs[k][t]))
    ensures forall k, r :: 0 <= k < |inputs| && 0 <= r < |picked[k]| ==> picked[k][r] < |inputs[k]|
    ensures forall k :: 0 <= k < |inputs| ==>
              |outputs[k]| == if spec.simpleProjection || spec.expressions != [] then |picked[k]| else 0
    ensures spec.simpleProjection ==>
              forall k, r :: 0 <= k < |inputs| && 0 <= r < |outputs[k]| ==>
                HasAttributes(spec.attributes, inputs[k][picked[k][r]]) &&
                |outputs[k][r]| == |spec.attributes| &&
                forall i :: 0 <= i < |spec.attributes| ==>
                  outputs[k][r][i] == inputs[k][picked[k][r]][spec.attributes[i]]
    ensures !spec.simpleProjection ==>
              forall k, r :: 0 <= k < |inputs| && 0 <= r < |outputs[k]| ==>
                |outputs[k][r]| == |spec.expressions| &&
                forall i :: 0 <= i < |spec.expressions| ==>
                  outputs[k][r][i] == e(spec.expressions[i], inputs[k][picked[k][r]])
  {
    hide Meaning;
  }

  /** What is emitted, value by value: a row for each row on which all predicates hold, in the order
      of the input, with the attributes or the expressions in the order of the select list. */
  lemma EmittedValues(spec: QuerySpec, o: Oracle, e: Evaluator, rows: seq<Row>) returns (ids: seq<nat>)
    requires spec.SelectSpec? && (spec.simpleProjection ==> RowsHave(spec.attributes, rows))
    ensures Made(spec, o, e, rows, ids, Emitted(spec, o, e, rows))
  {
    hide Emitted, Selected, RowsAt, Meaning, Projected, Evaluated;
    ids := SelectedPositions(spec.predicates, o, rows);
    RowsAtPositions(rows, ids);
    if spec.simpleProjection {
      EmittedAttributes(spec, o, e, rows);
    } else {
      EmittedExpressions(spec, o, e, rows);
    }
  }

  lemma RowsAtPositions(rows: seq<Row>, ids: seq<nat>)
    requires Within(ids, rows)
    ensures |RowsAt(rows, ids)| == |ids| && forall r :: 0 <= r < |ids| ==> RowsAt(rows, ids)[r] == rows[ids[r]]
  {
  }

  lemma EmittedAttributes(spec: QuerySpec, o: Oracle, e: Evaluator, rows: seq<Row>)
    requires spec.SelectSpec? && spec.simpleProjection && RowsHave(spec.attributes, rows)
    ensures var output, kept := Emitted(spec, o, e, rows), Selected(spec.predicates, o, rows);
            && |output| == |kept| && RowsHave(spec.attributes, kept)
            && (forall r :: 0 <= r < |output| ==> |output[r]| == |spec.attributes|)
            && (forall r, i :: 0 <= r < |output| && 0 <= i < |spec.attributes| ==>
                  HasAttributes(spec.attributes, kept[r]) && output[r][i] == kept[r][spec.attributes[i]])
  {
    hide Selected;
    SelectedHave(spec.predicates, o, rows, spec.attributes);
  }

  lemma EmittedExpressions(spec: QuerySpec, o: Oracle, e: Evaluator, rows: seq<Row>)
    requires spec.SelectSpec? && !spec.simpleProjection
    ensures var output, kept := Emitted(spec, o, e, rows), Selected(spec.predicates, o, rows);
            && |output| == (if spec.expressions == [] then 0 else |kept|)
            && (forall r :: 0 <= r < |output| ==> |output[r]| == |spec.expressions|)
            && (forall r, i :: 0 <= r < |output| && 0 <= i < |spec.expressions| ==>
                  output[r][i] == e(spec.expressions[i], kept[r]))
  {
    hide Selected;
  }

  // ---- the operator ---------------------------------------------------------------------------

  class StreamingSelectOperator {
    var selectSpec: Option<QuerySpec>

    constructor ()
      ensures selectSpec == None
    {
      selectSpec := None;
    }

    method Open(spec: QuerySpec) returns (done: bool)
      modifies this
      ensures done == (old(selectSpec).None? && spec.SelectSpec?)
      ensures selectSpec == if done then Some(spec) else old(selectSpec)
    {
      if selectSpec.Some? || !spec.SelectSpec? {
        return false;
      }
      selectSpec := Some(spec);
      return true;
    }

    method Close() returns (done: bool)
      modifies this
      ensures done == old(selectSpec).Some? && selectSpec == None
    {
      if selectSpec.None? {
        return false;
      }
      selectSpec := None;
      return true;
    }

    ghost predicate Ready(rows: seq<Row>)
      reads this
    {
      && selectSpec.Some? && selectSpec.value.SelectSpec?
      && (forall i :: 0 <= i < |selectSpec.value.predicates| ==> Built(selectSpec.value.predicates[i]))
      && (selectSpec.value.simpleProjection ==> RowsHave(selectSpec.value.attributes, rows))
      && |rows| < SIZE_MAX
    }

    /** One output for each input: the projected rows that satisfy all predicates, in order. Output
        row r of input k is made from row picked[k][r]. */
    method Next(inputs: seq<seq<Row>>, o: Oracle, e: Evaluator, shortCircuit: bool)
      returns (done: bool, outputs: seq<seq<Row>>, ghost picked: seq<seq<nat>>)
      requires selectSpec.Some? && selectSpec.value.SelectSpec? && forall k :: 0 <= k < |inputs| ==> Ready(inputs[k])
      ensures done && |outputs| == |inputs| == |picked|
      ensures forall k :: 0 <= k < |inputs| ==>
                Ready(inputs[k]) && outputs[k] == Emitted(selectSpec.value, o, e, inputs[k])
      ensures forall k, r, q :: 0 <= k < |inputs| && 0 <= r < q < |picked[k]| ==> picked[k][r] < picked[k][q]
      ensures forall k, t :: 0 <= k < |inputs| && 0 <= t < |inputs[k]| ==>
                (t in picked[k] <==>
                 forall i :: 0 <= i < |selectSpec.value.predicates| ==>
                   Meaning(selectSpec.value.predicates[i], o, inputs[k][t]))
      ensures forall k, r :: 0 <= k < |inputs| && 0 <= r < |picked[k]| ==> picked[k][r] < |inputs[k]|
      ensures forall k :: 0 <= k < |inputs| ==>
                |outputs[k]| == if selectSpec.value.simpleProjection || selectSpec.value.expressions != []
                                then |picked[k]| else 0
      ensures selectSpec.value.simpleProjection ==>
                forall k, r :: 0 <= k < |inputs| && 0 <= r < |outputs[k]| ==>
                  HasAttributes(selectSpec.value.attributes, inputs[k][picked[k][r]]) &&
                  |outputs[k][r]| == |selectSpec.value.attributes| &&
                  forall i :: 0 <= i < |selectSpec.value.attributes| ==>
                    outputs[k][r][i] == inputs[k][picked[k][r]][selectSpec.value.attributes[i]]
      ensures !selectSpec.value.simpleProjection ==>
                forall k, r :: 0 <= k < |inputs| && 0 <= r < |outputs[k]| ==>
                  |outputs[k][r]| == |selectSpec.value.expressions| &&
                  forall i :: 0 <= i < |selectSpec.value.expressions| ==>
                    outputs[k][r][i] == e(selectSpec.value.expressions[i], inputs[k][picked[k][r]])
    {
      hide Emitted, Made, Meaning;
      outputs, picked := [], [];
      ghost var spec := selectSpec.value;
      for k := 0 to |inputs|
        invariant |outputs| == |picked| == k
        invariant forall j :: 0 <= j < k ==> outputs[j] == Emitted(selectSpec.value, o, e, inputs[j])
        invariant forall j :: 0 <= j < k ==> Made(spec, o, e, inputs[j], picked[j], outputs[j])
      {
        var output := Select(inputs[k], o, e, shortCircuit);
        ghost var ids := EmittedValues(spec, o, e, inputs[k]);
        outputs, picked := outputs + [output], picked + [ids];
      }
      AllMade(spec, o, e, inputs, picked, outputs);
      done := true;
    }

    method Select(rows: seq<Row>, o: Oracle, e: Evaluator, shortCircuit: bool) returns (output: seq<Row>)
      requires Ready(rows)
      ensures output == Emitted(selectSpec.value, o, e, rows)
    {
      var spec := selectSpec.value;
      var ids := Filter(spec.predicates, rows, o, shortCircuit);
      if spec.simpleProjection {
        SelectedHave(spec.predicates, o, rows, spec.attributes);
        output := Project(rows, ids, spec.attributes);
      } else {
        output := Evaluate(rows, ids, spec.expressions, e);
      }
    }
  }

  // The filter chain, then the positions that the adapter over the last filter iterates.
  method Filter(predicates: seq<Predicate>, rows: seq<Row>, o: Oracle, shortCircuit: bool) returns (ids: seq<nat>)
    requires |rows| < SIZE_MAX && forall i :: 0 <= i < |predicates| ==> Built(predicates[i])
    ensures Within(ids, rows) && RowsAt(rows, ids) == Selected(predicates, o, rows)
  {
    hide PaddingClear, Logical, Built, Accepted, AcceptedByAll;
    ghost var base := AllTrue(|rows|);
    var filterResult: BitVector? := null;
    NoOperandsYet(predicates, o, rows, base);
    for i := 0 to |predicates|
      invariant filterResult == null <==> i == 0
      invariant Inputs(filterResult, null, |rows|)
      invariant Base(filterResult, null, |rows|) == AcceptedByAll(predicates[..i], o, rows, base)
    {
      filterResult := GetAllMatches(predicates[i], o, rows, filterResult, null, shortCircuit);
      ChainedByOne(predicates, i, o, rows, base);
    }
    assert predicates[..|predicates|] == predicates;
    FinalFilter(predicates, o, rows);
    if filterResult != null {
      ids := Visit(filterResult);
    } else {
      ids := seq(|rows|, t => t);
      AllIds(|rows|);
    }
  }

  lemma FinalFilter(ps: seq<Predicate>, o: Oracle, rows: seq<Row>)
    ensures var b := AcceptedByAll(ps, o, rows, AllTrue(|rows|));
            Within(Ids(b), rows) && RowsAt(rows, Ids(b)) == Selected(ps, o, rows)
  {
    FilteredRows(ps, o, rows, AcceptedByAll(ps, o, rows, AllTrue(|rows|)));
  }

  lemma {:induction false} AllIds(n: nat)
    ensures Ids(AllTrue(n)) == seq(n, t => t)
  {
    if n > 0 {
      AllIds(n - 1);
      assert AllTrue(n)[..n - 1] == AllTrue(n - 1);
    }
  }

  // The simple projection: attribute values, row by row.
  method Project(rows: seq<Row>, ids: seq<nat>, attributes: seq<nat>) returns (output: seq<Row>)
    requires Within(ids, rows) && RowsHave(attributes, rows)
    ensures |output| == |ids|
    ensures forall r :: 0 <= r < |ids| ==> output[r] == Projected(attributes, rows[ids[r]])
    ensures forall r :: 0 <= r < |ids| ==> |output[r]| == |attributes|
    ensures forall r, i :: 0 <= r < |ids| && 0 <= i < |attributes| ==> output[r][i] == rows[ids[r]][attributes[i]]
  {
    output := [];
    for r := 0 to |ids|
      invariant |output| == r
      invariant forall q :: 0 <= q < r ==> output[q] == Projected(attributes, rows[ids[q]])
    {
      var tuple := [];
      for i := 0 to |attributes|
        invariant tuple == Projected(attributes, rows[ids[r]])[..i]
      {
        tuple := tuple + [rows[ids[r]][attributes[i]]];
      }
      output := output + [tuple];
    }
  }

  // Evaluate one expression on all rows at a time, then read the columns across.
  method Evaluate(rows: seq<Row>, ids: seq<nat>, expressions: seq<nat>, e: Evaluator) returns (output: seq<Row>)
    requires Within(ids, rows)
    ensures |output| == if expressions == [] then 0 else |ids|
    ensures forall r :: 0 <= r < |output| ==> output[r] == Evaluated(expressions, e, rows[ids[r]])
    ensures forall r :: 0 <= r < |output| ==> |output[r]| == |expressions|
    ensures forall r, i :: 0 <= r < |output| && 0 <= i < |expressions| ==>
              output[r][i] == e(expressions[i], rows[ids[r]])
  {
    var columns: seq<seq<Value>> := [];
    var columnLength := 0;
    for c := 0 to |expressions|
      invariant |columns| == c && columnLength == if c == 0 then 0 else |ids|
      invariant forall d :: 0 <= d < c ==> |columns[d]| == |ids|
      invariant forall d, r :: 0 <= d < c && 0 <= r < |ids| ==> columns[d][r] == e(expressions[d], rows[ids[r]])
    {
      var column := seq(|ids|, r requires 0 <= r < |ids| => e(expressions[c], rows[ids[r]]));
      columns := columns + [column];
      columnLength := |column|;
    }
    output := [];
    for r := 0 to columnLength
      invariant |output| == r
      invariant forall q :: 0 <= q < r ==> output[q] == Evaluated(expressions, e, rows[ids[q]])
    {
      var tuple := seq(|columns|, c requires 0 <= c < |columns| => columns[c][r]);
      assert tuple == Evaluated(expressions, e, rows[ids[r]]);
      output := output + [tuple];
    }
  }
}
