/** The operator graph of utility/DAG.hpp: links recorded at both ends, cycle detection by
    depth-first search, and the two-pass stage scheduler. Hash sets are iterated in an
    arbitrary order. */
module Dags {
  import opened GraphTheory
  import opened Scheduling

  /** The nodes v with xs[v] == i, ascending. */
  function Listed(xs: seq<nat>, i: nat): seq<nat> {
    if xs == [] then []
    else
      var v := |xs| - 1;
      Listed(xs[..v], i) + if xs[v] == i then [v] else []
  }

  /** Every node appears in exactly one list, once. */
  lemma {:induction false} ListedExactly(xs: seq<nat>, i: nat)
    ensures forall v: nat :: v in Listed(xs, i) <==> v < |xs| && xs[v] == i
    ensures forall a, b | 0 <= a < b < |Listed(xs, i)| :: Listed(xs, i)[a] < Listed(xs, i)[b]
  {
    if xs != [] {
      var last := |xs| - 1;
      var front := xs[..last];
      ListedExactly(front, i);
      var part := Listed(front, i);
      assert Listed(xs, i) == part + if xs[last] == i then [last] else [];
      hide Listed;
      forall v: nat
        ensures v in Listed(xs, i) <==> v < |xs| && xs[v] == i
      {
        assert v in part <==> v < last && xs[v] == i;
      }
      assert forall a | 0 <= a < |part| :: part[a] in part && part[a] < last;
    }
  }

  lemma ListedStep(xs: seq<nat>, v: nat, i: nat)
    requires v < |xs|
    ensures Listed(xs[..v + 1], i) == if xs[v] == i then Listed(xs[..v], i) + [v] else Listed(xs[..v], i)
  {
    assert xs[..v + 1][..v] == xs[..v];
  }

  lemma NothingListed()
    ensures forall i :: Listed([], i) == []
  {
  }

  /** stages[i] lists the nodes that start at stage i and those that finish by it, for a
      schedule of the whole graph. */
  ghost predicate IsStageSequence<M>(g: Graph<M>, stages: seq<(seq<nat>, seq<nat>)>) {
    exists start, finish :: Schedule(g, |stages|, start, finish) && ListsOf(stages, start, finish)
  }

  predicate ListsOf(stages: seq<(seq<nat>, seq<nat>)>, start: seq<nat>, finish: seq<nat>) {
    forall i | 0 <= i < |stages| :: stages[i] == (Listed(start, i), Listed(finish, i))
  }

  /** What the stages hold, node by node. */
  lemma StagesSpelled(stages: seq<(seq<nat>, seq<nat>)>, start: seq<nat>, finish: seq<nat>)
    requires ListsOf(stages, start, finish)
    ensures forall i, v: nat | 0 <= i < |stages| :: v in stages[i].0 <==> v < |start| && start[v] == i
    ensures forall i, v: nat | 0 <= i < |stages| :: v in stages[i].1 <==> v < |finish| && finish[v] == i
    ensures forall i, a, b | 0 <= i < |stages| && 0 <= a < b < |stages[i].0| :: stages[i].0[a] < stages[i].0[b]
    ensures forall i, a, b | 0 <= i < |stages| && 0 <= a < b < |stages[i].1| :: stages[i].1[a] < stages[i].1[b]
  {
    hide Listed;
    forall i | 0 <= i < |stages|
      ensures forall v: nat :: v in stages[i].0 <==> v < |start| && start[v] == i
      ensures forall v: nat :: v in stages[i].1 <==> v < |finish| && finish[v] == i
      ensures forall a, b | 0 <= a < b < |stages[i].0| :: stages[i].0[a] < stages[i].0[b]
      ensures forall a, b | 0 <= a < b < |stages[i].1| :: stages[i].1[a] < stages[i].1[b]
    {
      ListedExactly(start, i);
      ListedExactly(finish, i);
    }
  }

  lemma ScheduleSizes<M>(g: Graph<M>, K: nat, start: seq<nat>, finish: seq<nat>)
    requires Schedule(g, K, start, finish)
    ensures |start| == |finish| == |g|
  {
  }

  class Dag<M> {
    var nodes: Graph<M>

    ghost predicate Valid()
      reads this
    {
      Mirrored(nodes)
    }

    constructor ()
      ensures Valid() && nodes == []
    {
      nodes := [];
    }

    method CreateNode() returns (index: nat)
      requires Valid()
      modifies this
      ensures Valid() && index == |old(nodes)|
      ensures nodes == old(nodes) + [Node({}, map[])]
    {
      nodes := nodes + [Node({}, map[])];
      index := |nodes| - 1;
    }

    method CreateLink(dependency: nat, dependent: nat, metadata: M)
      requires Valid() && dependency < |nodes| && dependent < |nodes|
      modifies this
      ensures Valid() && |nodes| == |old(nodes)|
      ensures forall d, n | 0 <= d < |nodes| && 0 <= n < |nodes| ::
                Edge(nodes, d, n) <==> Edge(old(nodes), d, n) || (d == dependency && n == dependent)
      ensures nodes[dependency].dependents ==
              if dependent in old(nodes)[dependency].dependents then old(nodes)[dependency].dependents
              else old(nodes)[dependency].dependents[dependent := metadata]
      ensures forall d | 0 <= d < |nodes| && d != dependency :: nodes[d].dependents == old(nodes)[d].dependents
    {
      // emplace() keeps the metadata of a link that is already there
      var source := nodes[dependency];
      if dependent !in source.dependents {
        nodes := nodes[dependency := source.(dependents := source.dependents[dependent := metadata])];
      }
      var target := nodes[dependent];
      nodes := nodes[dependent := target.(dependencies := target.dependencies + {dependency})];
    }

    // ---- cycle detection -----------------------------------------------------------

    /** What the two flag arrays say while `stack` is being explored and `done` is finished. */
    ghost predicate Searching(visited: array<bool>, onStack: array<bool>, stack: seq<nat>, done: seq<nat>)
      reads this, visited, onStack
    {
      && visited.Length == onStack.Length == |nodes| && visited != onStack
      && (stack == [] || Walk(nodes, stack))
      && (forall v | 0 <= v < |nodes| :: onStack[v] <==> v in stack)
      && (forall v | 0 <= v < |nodes| :: visited[v] <==> v in stack || v in done)
      && (forall v | v in done :: v < |nodes| && v !in stack)
      && FinishOrder(nodes, done)
    }

    ghost function Unvisited(visited: array<bool>): set<nat>
      reads visited
    {
      set v | 0 <= v < visited.Length && !visited[v]
    }

    method HasCycle() returns (found: bool)
      requires Valid()
      ensures found <==> Cyclic(nodes)
    {
      var visited := new bool[|nodes|](_ => false);
      var onStack := new bool[|nodes|](_ => false);
      ghost var done := [];
      // a search from one node sees only what can be reached from it
      for node := 0 to |nodes|
        invariant Searching(visited, onStack, [], done)
        invariant forall v | 0 <= v < node :: v in done
      {
        found, done := HasCycleHelper(node, visited, onStack, [], done);
        if found {
          return;
        }
      }
      FinishOrderMeansAcyclic(nodes, done);
      found := false;
    }

    method HasCycleHelper(node: nat, visited: array<bool>, onStack: array<bool>,
                          ghost stack: seq<nat>, ghost done: seq<nat>)
      returns (found: bool, ghost finished: seq<nat>)
      requires Valid() && Searching(visited, onStack, stack, done) && node < |nodes|
      requires stack == [] || Edge(nodes, stack[|stack| - 1], node)
      requires visited[node] ==> stack == []
      modifies visited, onStack
      ensures found ==> Cyclic(nodes)
      ensures !found ==> Searching(visited, onStack, stack, finished)
      ensures !found ==> done <= finished && node in finished
      ensures forall v | 0 <= v < visited.Length :: old(visited[v]) ==> visited[v]
      decreases Unvisited(visited)
    {
      hide Walk, FinishOrder, Cyclic;
      finished := done;
      if !visited[node] {
        ghost var before := Unvisited(visited);
        visited[node] := true;
        onStack[node] := true;
        ghost var path := stack + [node];
        PathExtends(stack, node);
        assert node in before && node !in Unvisited(visited) && Unvisited(visited) <= before;
        var rest := nodes[node].dependents.Keys;
        while rest != {}
          invariant Searching(visited, onStack, path, finished)
          invariant done <= finished
          invariant rest <= nodes[node].dependents.Keys
          invariant forall n | n in nodes[node].dependents && n !in rest :: n in finished
          invariant forall v | 0 <= v < visited.Length :: old(visited[v]) ==> visited[v]
          invariant node !in Unvisited(visited)
          decreases rest
        {
          var n :| n in rest;
          assert Edge(nodes, node, n) by {
            assert n in nodes[node].dependents;
          }
          rest := rest - {n};
          if !visited[n] {
            assert Unvisited(visited) < before;
            ghost var was := finished;
            found, finished := HasCycleHelper(n, visited, onStack, path, finished);
            if found {
              return;
            }
          }
          if onStack[n] {
            ClosedStack(path, n);
            return true, finished;
          }
        }
        FinishNode(stack, node, finished);
        finished := finished + [node];
      }
      onStack[node] := false;
      found := false;
    }

    lemma PathExtends(stack: seq<nat>, node: nat)
      requires stack == [] || (Walk(nodes, stack) && Edge(nodes, stack[|stack| - 1], node))
      requires node < |nodes|
      ensures Walk(nodes, stack + [node])
    {
    }

    /** Meeting a node of the stack again closes a walk. */
    lemma ClosedStack(path: seq<nat>, n: nat)
      requires Walk(nodes, path) && n in path && Edge(nodes, path[|path| - 1], n)
      ensures Cyclic(nodes)
    {
      var i :| 0 <= i < |path| && path[i] == n;
      SubWalk(nodes, path, i, |path|);
      ExtendWalk(nodes, path[i..], n);
      var c := path[i..] + [n];
      assert Walk(nodes, c) && |c| >= 2 && c[0] == c[|c| - 1];
    }

    lemma FinishNode(stack: seq<nat>, node: nat, done: seq<nat>)
      requires FinishOrder(nodes, done) && node < |nodes|
      requires forall n | n in nodes[node].dependents :: n in done
      ensures FinishOrder(nodes, done + [node])
    {
      var all := done + [node];
      forall i, n | 0 <= i < |all| && all[i] < |nodes| && n in nodes[all[i]].dependents
        ensures n in all[..i]
      {
        if i < |done| {
          assert all[..i] == done[..i];
        } else {
          assert all[..i] == done;
        }
      }
    }

    // ---- stage scheduling --------------------------------------------------------------

    // The first pass: layer by layer from the sinks, overwriting offsets.
    method FinishOffsets() returns (offsets: array<nat>, numStages: nat)
      requires Valid() && !Cyclic(nodes)
      ensures fresh(offsets) && offsets.Length == |nodes| && LayersCounted(nodes, offsets[..], numStages)
    {
      hide Layer, Offset, Mirrored, Cyclic;
      offsets := new nat[|nodes|](_ => 0);
      var current := MarkSinks(offsets);
      if current != {} {
        LayersAreShallow(nodes, 0);
      }
      numStages := 1;
      ghost var k := 0;
      while current != {}
        invariant numStages == k + 1 && current == Layer(nodes, k)
        invariant current != {} ==> k < |nodes|
        invariant k > 0 ==> Layer(nodes, k - 1) != {}
        invariant forall v | 0 <= v < |nodes| :: offsets[v] == Offset(nodes, v, k)
        decreases |nodes| - k
      {
        numStages := numStages + 1;
        current := MarkPriorStage(current, offsets, numStages, k);
        k := k + 1;
        if Layer(nodes, k) != {} {
          LayersAreShallow(nodes, k);
        }
      }
      // the iteration that found no dependencies was counted too
      numStages := numStages - 1;
    }

    // Nodes without dependents finish in the last stage.
    method MarkSinks(offsets: array<nat>) returns (current: set<nat>)
      requires Valid() && offsets.Length == |nodes| && forall v | 0 <= v < |nodes| :: offsets[v] == 0
      modifies offsets
      ensures current == Layer(nodes, 0)
      ensures forall v | 0 <= v < |nodes| :: offsets[v] == Offset(nodes, v, 0)
    {
      current := {};
      for node := 0 to |nodes|
        invariant current == set v | 0 <= v < node && nodes[v].dependents == map[]
        invariant forall v | 0 <= v < node :: offsets[v] == Offset(nodes, v, 0)
        invariant forall v | node <= v < |nodes| :: offsets[v] == 0
      {
        if nodes[node].dependents == map[] {
          offsets[node] := 1;
          current := current + {node};
        }
      }
    }

    method MarkPriorStage(current: set<nat>, offsets: array<nat>, numStages: nat, ghost k: nat)
      returns (prior: set<nat>)
      requires Valid() && offsets.Length == |nodes|
      requires current == Layer(nodes, k) && numStages == k + 2
      requires forall v | 0 <= v < |nodes| :: offsets[v] == Offset(nodes, v, k)
      modifies offsets
      ensures prior == Layer(nodes, k + 1)
      ensures forall v | 0 <= v < |nodes| :: offsets[v] == Offset(nodes, v, k + 1)
    {
      prior := {};
      LayerMembers(nodes, k);
      ghost var was := offsets[..];
      ghost var processed := {};
      var rest := current;
      while rest != {}
        invariant rest !! processed && rest + processed == current
        invariant forall d :: d in prior <==> exists n :: n in processed && n < |nodes| && d in nodes[n].dependencies
        invariant forall v | 0 <= v < |nodes| :: offsets[v] == if v in prior then numStages else was[v]
      {
        var n :| n in rest;
        rest, processed := rest - {n}, processed + {n};
        prior := MarkDependencies(n, offsets, numStages, prior);
      }
      assert processed == current;
    }

    method MarkDependencies(n: nat, offsets: array<nat>, numStages: nat, prior: set<nat>) returns (more: set<nat>)
      requires Valid() && n < |nodes| == offsets.Length
      modifies offsets
      ensures more == prior + nodes[n].dependencies
      ensures forall v | 0 <= v < |nodes| ::
                offsets[v] == if v in nodes[n].dependencies then numStages else old(offsets[v])
    {
      more := prior;
      var links := nodes[n].dependencies;
      while links != {}
        invariant links <= nodes[n].dependencies
        invariant more == prior + (nodes[n].dependencies - links)
        invariant forall v | 0 <= v < |nodes| ::
                    offsets[v] == if v in nodes[n].dependencies - links then numStages else old(offsets[v])
      {
        var d :| d in links;
        links := links - {d};
        offsets[d] := numStages;
        more := more + {d};
      }
    }

    // The second pass: a node starts right after the last of its dependencies has finished.
    method StartStages(offsets: array<nat>, numStages: nat) returns (starts: array<nat>)
      requires Valid() && offsets.Length == |nodes| && LayersCounted(nodes, offsets[..], numStages)
      ensures fresh(starts) && starts.Length == |nodes|
      ensures StartsComputed(nodes, offsets[..], numStages, starts[..])
    {
      LayersBoundOffsets(nodes, offsets[..], numStages);
      starts := new nat[|nodes|](_ => 0);
      for node := 0 to |nodes|
        invariant forall v | 0 <= v < node :: IsStart(nodes, v, offsets[..], numStages, starts[v])
      {
        var start := 0;
        var links := nodes[node].dependencies;
        while links != {}
          invariant links <= nodes[node].dependencies
          invariant forall d | d in nodes[node].dependencies - links :: numStages - offsets[d] + 1 <= start
          invariant start == 0 || exists d :: d in nodes[node].dependencies && start == numStages - offsets[d] + 1
          invariant start == 0 ==> links == nodes[node].dependencies
        {
          var d :| d in links;
          links := links - {d};
          var candidate := numStages - offsets[d] + 1;
          if candidate > start {
            start := candidate;
          }
        }
        starts[node] := start;
      }
    }

    /** The nodes that start and that finish at each stage: a dependency finishes before its dependents
        start, a node starts as early as its dependencies allow, and finishes as late as the nodes on
        a longest walk from it leave room. */
    method ComputeStageSequence()
      returns (stages: seq<(seq<nat>, seq<nat>)>, ghost start: seq<nat>, ghost finish: seq<nat>)
      requires Valid() && !Cyclic(nodes)
      ensures IsStageSequence(nodes, stages)
      ensures Schedule(nodes, |stages|, start, finish)
      ensures |start| == |finish| == |nodes|
      ensures forall i, v: nat | 0 <= i < |stages| :: v in stages[i].0 <==> v < |start| && start[v] == i
      ensures forall i, v: nat | 0 <= i < |stages| :: v in stages[i].1 <==> v < |finish| && finish[v] == i
      ensures forall i, a, b | 0 <= i < |stages| && 0 <= a < b < |stages[i].0| :: stages[i].0[a] < stages[i].0[b]
      ensures forall i, a, b | 0 <= i < |stages| && 0 <= a < b < |stages[i].1| :: stages[i].1[a] < stages[i].1[b]
    {
      hide Mirrored, Cyclic, LayersCounted, StartsComputed, Schedule, Pushable, Listed;
      var offsets, numStages := FinishOffsets();
      var starts := StartStages(offsets, numStages);
      start := starts[..];
      finish := LayersMakeASchedule(nodes, offsets[..], numStages, start);
      stages := PushNodes(offsets, starts, numStages, start, finish);
      assert Schedule(nodes, |stages|, start, finish) && ListsOf(stages, start, finish);
      StagesSpelled(stages, start, finish);
      ScheduleSizes(nodes, |stages|, start, finish);
    }

    method PushNodes(offsets: array<nat>, starts: array<nat>, numStages: nat,
                     ghost start: seq<nat>, ghost finish: seq<nat>)
      returns (stages: seq<(seq<nat>, seq<nat>)>)
      requires start == starts[..] && Pushable(offsets[..], numStages, start, finish)
      requires offsets.Length == |nodes|
      ensures |stages| == numStages
      ensures forall i | 0 <= i < numStages :: stages[i] == (Listed(start, i), Listed(finish, i))
    {
      NothingListed();
      hide Listed;
      stages := seq(numStages, _ => ([], []));
      for v := 0 to |nodes|
        invariant |stages| == numStages
        invariant forall i | 0 <= i < numStages :: stages[i] == (Listed(start[..v], i), Listed(finish[..v], i))
      {
        var s := starts[v];
        stages := stages[s := (stages[s].0 + [v], stages[s].1)];
        var f := numStages - offsets[v];
        stages := stages[f := (stages[f].0, stages[f].1 + [v])];
        forall i | 0 <= i < numStages
          ensures stages[i] == (Listed(start[..v + 1], i), Listed(finish[..v + 1], i))
        {
          ListedStep(start, v, i);
          ListedStep(finish, v, i);
        }
      }
      assert start[..|nodes|] == start && finish[..|nodes|] == finish;
    }
  }
}
