/** The laws of a schedule computed from the layers of an acyclic graph. */
module Scheduling {
  import opened GraphTheory

  /** start is one more than the latest finish of a dependency, zero without dependencies. */
  ghost predicate IsStart<M>(g: Graph<M>, v: nat, offsets: seq<nat>, numStages: nat, start: nat)
    requires Mirrored(g) && v < |g| == |offsets|
  {
    && (forall d | d in g[v].dependencies :: numStages - offsets[d] < start)
    && (start == 0 || exists d :: d in g[v].dependencies && start == numStages - offsets[d] + 1)
  }

  /** From the layers: offsets count the nodes on longest walks and lie in 1..numStages. */
  lemma OffsetsAreLongestWalks<M>(g: Graph<M>, offsets: seq<nat>, numStages: nat)
    requires Mirrored(g) && !Cyclic(g) && |offsets| == |g|
    requires Layer(g, numStages) == {}
    requires forall v | 0 <= v < |g| :: offsets[v] == Offset(g, v, numStages)
    ensures forall v | 0 <= v < |g| :: LongestFrom(g, v, offsets[v]) && 1 <= offsets[v] <= numStages
  {
    hide Layer, Mirrored, Cyclic;
    EmptyFrom(g, numStages, numStages + 1);
    forall v | 0 <= v < |g|
      ensures LongestFrom(g, v, offsets[v]) && 1 <= offsets[v] <= numStages
    {
      OffsetIsLongest(g, v, numStages);
      assert Walk(g, [v]) && [v][0] == v;
    }
  }

  /** Every offset from 1 to numStages is taken, and the longest walk has numStages nodes. */
  lemma EveryOffsetOccurs<M>(g: Graph<M>, offsets: seq<nat>, numStages: nat)
    requires Mirrored(g) && |offsets| == |g|
    requires numStages > 0 ==> Layer(g, numStages - 1) != {}
    requires forall v | 0 <= v < |g| :: offsets[v] == Offset(g, v, numStages)
    requires forall v | 0 <= v < |g| :: LongestFrom(g, v, offsets[v]) && offsets[v] <= numStages
    ensures forall i | 1 <= i <= numStages :: i in offsets
    ensures numStages > 0 ==> exists p :: Walk(g, p) && |p| == numStages
  {
    hide Walk, Mirrored, Layer, LongestFrom;
    if numStages > 0 {
      LayerMembers(g, numStages - 1);
      var v :| v in Layer(g, numStages - 1);
      assert offsets[v] == numStages;
      var p := LayerHasWalk(g, numStages - 1, v);
      assert Walk(g, p) && |p| == numStages;
      forall i | 1 <= i <= numStages
        ensures i in offsets
      {
        var u := EveryLengthOccurs(g, v, numStages, i);
        LongestIsUnique(g, u, i, offsets[u]);
        assert offsets[u] == i;
      }
    }
  }

  lemma WalkBound<M>(g: Graph<M>, p: seq<nat>, m: nat)
    requires Walk(g, p) && LongestFrom(g, p[0], m)
    ensures |p| <= m
  {
  }

  lemma EdgesAreOrdered<M>(g: Graph<M>, offsets: seq<nat>, numStages: nat, start: seq<nat>, finish: seq<nat>)
    requires Mirrored(g) && |offsets| == |start| == |finish| == |g|
    requires forall v | 0 <= v < |g| :: LongestFrom(g, v, offsets[v]) && 1 <= offsets[v] <= numStages
    requires forall v | 0 <= v < |g| :: IsStart(g, v, offsets, numStages, start[v])
    requires forall v | 0 <= v < |g| :: finish[v] == numStages - offsets[v]
    ensures forall v | 0 <= v < |g| :: start[v] <= finish[v] < numStages
    ensures forall d, n | 0 <= d < |g| && 0 <= n < |g| && Edge(g, d, n) :: finish[d] < start[n]
  {
    forall v | 0 <= v < |g|
      ensures start[v] <= finish[v]
    {
      if start[v] > 0 {
        var d :| d in g[v].dependencies && start[v] == numStages - offsets[d] + 1;
        LongestShrinksAlongEdges(g, d, v, offsets[d], offsets[v]);
      }
    }
  }

  lemma StagesAreFilled<M>(g: Graph<M>, offsets: seq<nat>, numStages: nat, finish: seq<nat>)
    requires |offsets| == |finish| == |g|
    requires forall v | 0 <= v < |g| :: LongestFrom(g, v, offsets[v]) && offsets[v] <= numStages
    requires forall v | 0 <= v < |g| :: finish[v] == numStages - offsets[v]
    requires forall i | 1 <= i <= numStages :: i in offsets
    ensures forall i | 0 <= i < numStages :: i in finish
    ensures forall v | 0 <= v < |g| :: LongestFrom(g, v, numStages - finish[v])
    ensures forall p | Walk(g, p) :: |p| <= numStages
  {
    forall i | 0 <= i < numStages
      ensures i in finish
    {
      assert numStages - i in offsets;
      var v :| 0 <= v < |g| && offsets[v] == numStages - i;
      assert finish[v] == i;
    }
    forall p | Walk(g, p)
      ensures |p| <= numStages
    {
      WalkBound(g, p, offsets[p[0]]);
    }
  }

  lemma StartsAreTight<M>(g: Graph<M>, offsets: seq<nat>, numStages: nat, start: seq<nat>, finish: seq<nat>)
    requires Mirrored(g) && |offsets| == |start| == |finish| == |g|
    requires forall v | 0 <= v < |g| :: IsStart(g, v, offsets, numStages, start[v])
    requires forall v | 0 <= v < |g| :: finish[v] == numStages - offsets[v]
    ensures forall n | 0 <= n < |g| ::
              start[n] == 0 || exists d :: 0 <= d < |g| && Edge(g, d, n) && start[n] == finish[d] + 1
  {
    forall n | 0 <= n < |g| && start[n] != 0
      ensures exists d :: 0 <= d < |g| && Edge(g, d, n) && start[n] == finish[d] + 1
    {
      var d :| d in g[n].dependencies && start[n] == numStages - offsets[d] + 1;
      assert Edge(g, d, n) && start[n] == finish[d] + 1;
    }
  }

  /** A schedule of all nodes into K stages. For every link the dependency finishes strictly
      before the dependent starts; a node starts at stage 0 or right after a dependency; it
      finishes as late as its longest walk to the end allows; no stage is without a finishing
      node; and K is the number of nodes on a longest walk, 0 for an empty graph. */
  ghost predicate Schedule<M>(g: Graph<M>, K: nat, start: seq<nat>, finish: seq<nat>) {
    && |start| == |finish| == |g|
    && (forall v | 0 <= v < |g| :: start[v] <= finish[v] < K)
    && (forall d, n | 0 <= d < |g| && 0 <= n < |g| && Edge(g, d, n) :: finish[d] < start[n])
    && (forall n | 0 <= n < |g| ::
          start[n] == 0 || exists d :: 0 <= d < |g| && Edge(g, d, n) && start[n] == finish[d] + 1)
    && (forall v | 0 <= v < |g| :: LongestFrom(g, v, K - finish[v]))
    && (forall i | 0 <= i < K :: i in finish)
    && (K > 0 ==> exists p :: Walk(g, p) && |p| == K)
    && (forall p | Walk(g, p) :: |p| <= K)
  }

  /** The outcome of the first pass: every layer below K is inhabited, layer K is empty, and
      offsets record the highest layer of every node. */
  ghost predicate LayersCounted<M>(g: Graph<M>, offsets: seq<nat>, K: nat) {
    && |offsets| == |g|
    && Layer(g, K) == {} && (K > 0 ==> Layer(g, K - 1) != {})
    && (forall v | 0 <= v < |g| :: offsets[v] == Offset(g, v, K))
  }

  lemma LayersBoundOffsets<M>(g: Graph<M>, offsets: seq<nat>, K: nat)
    requires LayersCounted(g, offsets, K)
    ensures |offsets| == |g| && forall v | 0 <= v < |g| :: offsets[v] <= K
  {
  }

  /** The outcome of the second pass. */
  ghost predicate StartsComputed<M>(g: Graph<M>, offsets: seq<nat>, K: nat, start: seq<nat>)
    requires Mirrored(g)
  {
    && |start| == |offsets| == |g|
    && forall v | 0 <= v < |g| :: IsStart(g, v, offsets, K, start[v])
  }

  /** Stage numbers that fit the stages they are pushed into. */
  ghost predicate Pushable(offsets: seq<nat>, K: nat, start: seq<nat>, finish: seq<nat>) {
    && |offsets| == |start| == |finish|
    && (forall v | 0 <= v < |offsets| :: offsets[v] <= K && finish[v] == K - offsets[v])
    && (forall v | 0 <= v < |offsets| :: start[v] < K && finish[v] < K)
  }

  lemma OffsetsMakeASchedule<M>(g: Graph<M>, offsets: seq<nat>, K: nat, start: seq<nat>, finish: seq<nat>)
    requires Mirrored(g) && !Cyclic(g) && |offsets| == |start| == |finish| == |g|
    requires Layer(g, K) == {} && (K > 0 ==> Layer(g, K - 1) != {})
    requires forall v | 0 <= v < |g| :: offsets[v] == Offset(g, v, K)
    requires forall v | 0 <= v < |g| :: IsStart(g, v, offsets, K, start[v])
    requires forall v | 0 <= v < |g| :: finish[v] == K - offsets[v]
    ensures Schedule(g, K, start, finish)
  {
    hide Layer, Mirrored, Cyclic, Walk, Offset, LongestFrom, IsStart;
    OffsetsAreLongestWalks(g, offsets, K);
    EveryOffsetOccurs(g, offsets, K);
    EdgesAreOrdered(g, offsets, K, start, finish);
    StagesAreFilled(g, offsets, K, finish);
    StartsAreTight(g, offsets, K, start, finish);
  }

  lemma SchedulesFit<M>(g: Graph<M>, offsets: seq<nat>, K: nat, start: seq<nat>, finish: seq<nat>)
    requires Schedule(g, K, start, finish) && |offsets| == |g|
    requires forall v | 0 <= v < |g| :: offsets[v] <= K && finish[v] == K - offsets[v]
    ensures Pushable(offsets, K, start, finish)
  {
  }

  lemma LayersMakeASchedule<M>(g: Graph<M>, offsets: seq<nat>, K: nat, start: seq<nat>) returns (finish: seq<nat>)
    requires Mirrored(g) && !Cyclic(g)
    requires LayersCounted(g, offsets, K) && StartsComputed(g, offsets, K, start)
    ensures Schedule(g, K, start, finish)
    ensures Pushable(offsets, K, start, finish)
  {
    hide Layer, Mirrored, Cyclic, Offset, IsStart, Schedule, Pushable;
    LayersBoundOffsets(g, offsets, K);
    finish := seq(|offsets|, v requires 0 <= v < |offsets| && offsets[v] <= K => K - offsets[v]);
    OffsetsMakeASchedule(g, offsets, K, start, finish);
    SchedulesFit(g, offsets, K, start, finish);
  }
}
