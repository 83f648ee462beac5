/** Walks, cycles and layers of the dependency graph of utility/DAG.hpp. */
module GraphTheory {

  /** A node as the graph stores it: the nodes it depends on, and the nodes that depend on it
      with the metadata of each link. */
  datatype Node<M> = Node(dependencies: set<nat>, dependents: map<nat, M>)

  type Graph<M> = seq<Node<M>>

  /** Both directions of every link are recorded, between existing nodes. */
  ghost predicate Mirrored<M>(g: Graph<M>) {
    && (forall d: nat, n: nat {:trigger n in g[d].dependents} | d < |g| && n in g[d].dependents ::
          n < |g| && d in g[n].dependencies)
    && (forall d: nat, n: nat {:trigger d in g[n].dependencies} | n < |g| && d in g[n].dependencies ::
          d < |g| && n in g[d].dependents)
  }

  predicate Edge<M>(g: Graph<M>, d: nat, n: nat) {
    d < |g| && n < |g| && n in g[d].dependents
  }

  /** A nonempty sequence of nodes along links, dependency to dependent. */
  predicate Walk<M>(g: Graph<M>, p: seq<nat>) {
    && 0 < |p|
    && (forall i | 0 <= i < |p| :: p[i] < |g|)
    && (forall i | 0 <= i < |p| - 1 :: Edge(g, p[i], p[i + 1]))
  }

  /** A closed walk with at least one link; a self-loop is one. */
  ghost predicate Cyclic<M>(g: Graph<M>) {
    exists p :: Walk(g, p) && |p| >= 2 && p[0] == p[|p| - 1]
  }

  lemma SubWalk<M>(g: Graph<M>, p: seq<nat>, i: nat, j: nat)
    requires Walk(g, p) && i < j <= |p|
    ensures Walk(g, p[i..j])
  {
    var q := p[i..j];
    forall k | 0 <= k < |q| - 1
      ensures Edge(g, q[k], q[k + 1])
    {
      assert Edge(g, p[i + k], p[i + k + 1]);
    }
  }

  lemma ExtendWalk<M>(g: Graph<M>, p: seq<nat>, n: nat)
    requires Walk(g, p) && Edge(g, p[|p| - 1], n)
    ensures Walk(g, p + [n])
  {
  }

  lemma PrependWalk<M>(g: Graph<M>, d: nat, p: seq<nat>)
    requires Walk(g, p) && Edge(g, d, p[0])
    ensures Walk(g, [d] + p)
  {
    var q := [d] + p;
    forall k | 0 <= k < |q| - 1
      ensures Edge(g, q[k], q[k + 1])
    {
      if k > 0 {
        assert Edge(g, p[k - 1], p[k]);
      }
    }
  }

  // ---- finish orders and cycles ------------------------------------------------------

  /** Every dependent of a listed node is listed before it. */
  ghost predicate FinishOrder<M>(g: Graph<M>, done: seq<nat>) {
    forall i, n | 0 <= i < |done| && done[i] < |g| && n in g[done[i]].dependents :: n in done[..i]
  }

  /** Along a walk, positions in a finish order go strictly down. */
  lemma {:induction false} WalkDescends<M>(g: Graph<M>, done: seq<nat>, p: seq<nat>, i: nat) returns (j: nat)
    requires FinishOrder(g, done) && Walk(g, p)
    requires i < |done| && done[i] == p[0]
    ensures j + |p| <= i + 1 && done[j] == p[|p| - 1]
    decreases |p|
  {
    if |p| == 1 {
      j := i;
    } else {
      assert Edge(g, p[0], p[1]);
      assert p[1] in done[..i];
      var k :| 0 <= k < i && done[k] == p[1];
      SubWalk(g, p, 1, |p|);
      j := WalkDescends(g, done, p[1..], k);
    }
  }

  /** Chasing a closed walk through a finish order would go down forever. */
  lemma {:induction false} ClosedWalkEscapes<M>(g: Graph<M>, done: seq<nat>, p: seq<nat>, i: nat)
    requires FinishOrder(g, done) && Walk(g, p) && |p| >= 2 && p[0] == p[|p| - 1]
    requires i < |done| && done[i] == p[0]
    ensures false
    decreases i
  {
    var j := WalkDescends(g, done, p, i);
    ClosedWalkEscapes(g, done, p, j);
  }

  lemma FinishOrderMeansAcyclic<M>(g: Graph<M>, done: seq<nat>)
    requires FinishOrder(g, done)
    requires forall v | 0 <= v < |g| :: v in done
    ensures !Cyclic(g)
  {
    if Cyclic(g) {
      var p :| Walk(g, p) && |p| >= 2 && p[0] == p[|p| - 1];
      assert p[0] in done;
      var i :| 0 <= i < |done| && done[i] == p[0];
      ClosedWalkEscapes(g, done, p, i);
    }
  }

  // ---- long walks repeat a node --------------------------------------------------------

  lemma {:induction false} Pigeonhole(p: seq<nat>, n: nat) returns (i: nat, j: nat)
    requires |p| > n
    requires forall k | 0 <= k < |p| :: p[k] < n
    ensures i < j < |p| && p[i] == p[j]
    decreases n
  {
    var last := |p| - 1;
    if k :| 0 <= k < last && p[k] == p[last] {
      i, j := k, last;
    } else {
      // No other entry has the last value: move the values above it down by one.
      var q := seq(last, k requires 0 <= k < last => if p[k] > p[last] then p[k] - 1 else p[k]);
      i, j := Pigeonhole(q, n - 1);
    }
  }

  lemma LongWalksAreCyclic<M>(g: Graph<M>, p: seq<nat>)
    requires Walk(g, p) && |p| > |g|
    ensures Cyclic(g)
  {
    var i, j := Pigeonhole(p, |g|);
    SubWalk(g, p, i, j + 1);
    var c := p[i..j + 1];
    assert Walk(g, c) && |c| >= 2 && c[0] == c[|c| - 1];
  }

  lemma AcyclicWalksAreShort<M>(g: Graph<M>, p: seq<nat>)
    requires Walk(g, p) && !Cyclic(g)
    ensures |p| <= |g|
  {
    if |p| > |g| {
      LongWalksAreCyclic(g, p);
    }
  }

  predicate Sink<M>(g: Graph<M>, v: nat) {
    v < |g| && g[v].dependents == map[]
  }

  /** In an acyclic graph every walk can be continued to a sink. */
  lemma {:induction false} ContinueToSink<M>(g: Graph<M>, p: seq<nat>) returns (q: seq<nat>)
    requires Mirrored(g) && Walk(g, p) && !Cyclic(g)
    ensures Walk(g, q) && |q| >= |p| && q[0] == p[0] && Sink(g, q[|q| - 1])
    decreases |g| - |p|
  {
    AcyclicWalksAreShort(g, p);
    var v := p[|p| - 1];
    if Sink(g, v) {
      q := p;
    } else {
      var n :| n in g[v].dependents;
      ExtendWalk(g, p, n);
      AcyclicWalksAreShort(g, p + [n]);
      q := ContinueToSink(g, p + [n]);
    }
  }

  // ---- layers ---------------------------------------------------------------------------

  /** The nodes with a walk of exactly k links to a sink. */
  ghost function Layer<M>(g: Graph<M>, k: nat): set<nat> {
    if k == 0 then set v | 0 <= v < |g| && g[v].dependents == map[]
    else set d, n | n in Layer(g, k - 1) && n < |g| && d in g[n].dependencies :: d
  }

  lemma {:induction false} LayerMembers<M>(g: Graph<M>, k: nat)
    requires Mirrored(g)
    ensures forall v | v in Layer(g, k) :: v < |g|
  {
    forall v | v in Layer(g, k)
      ensures v < |g|
    {
      if k > 0 {
        var n :| n in Layer(g, k - 1) && n < |g| && v in g[n].dependencies;
      }
    }
  }

  lemma {:induction false} LayerHasWalk<M>(g: Graph<M>, k: nat, v: nat) returns (p: seq<nat>)
    requires Mirrored(g) && v in Layer(g, k)
    ensures Walk(g, p) && |p| == k + 1 && p[0] == v && Sink(g, p[k])
  {
    if k == 0 {
      p := [v];
    } else {
      var n :| n in Layer(g, k - 1) && n < |g| && v in g[n].dependencies;
      var rest := LayerHasWalk(g, k - 1, n);
      PrependWalk(g, v, rest);
      p := [v] + rest;
    }
  }

  lemma {:induction false} WalkIsInLayer<M>(g: Graph<M>, p: seq<nat>)
    requires Mirrored(g) && Walk(g, p) && Sink(g, p[|p| - 1])
    ensures p[0] in Layer(g, |p| - 1)
    decreases |p|
  {
    if |p| > 1 {
      SubWalk(g, p, 1, |p|);
      WalkIsInLayer(g, p[1..]);
      assert Edge(g, p[0], p[1]);
    }
  }

  lemma LayersAreShallow<M>(g: Graph<M>, k: nat)
    requires Mirrored(g) && !Cyclic(g) && Layer(g, k) != {}
    ensures k < |g|
  {
    var v :| v in Layer(g, k);
    var p := LayerHasWalk(g, k, v);
    AcyclicWalksAreShort(g, p);
  }

  /** An empty layer is followed by empty layers. */
  lemma {:induction false} EmptyFrom<M>(g: Graph<M>, k: nat, j: nat)
    requires Layer(g, k) == {} && k <= j
    ensures Layer(g, j) == {}
  {
    if k < j {
      EmptyFrom(g, k, j - 1);
    }
  }

  /** One more than the highest layer up to k that has v, zero if none has. */
  ghost function Offset<M>(g: Graph<M>, v: nat, k: nat): (r: nat)
    ensures r <= k + 1
    ensures r > 0 ==> v in Layer(g, r - 1)
    ensures forall j | r <= j <= k :: v !in Layer(g, j)
  {
    if v in Layer(g, k) then k + 1 else if k == 0 then 0 else Offset(g, v, k - 1)
  }

  /** No walk from v has more than m nodes, and one has m. */
  ghost predicate LongestFrom<M>(g: Graph<M>, v: nat, m: nat) {
    && (exists p :: Walk(g, p) && p[0] == v && |p| == m)
    && (forall p | Walk(g, p) && p[0] == v :: |p| <= m)
  }

  /** With all layers seen, the offset of a node is the number of nodes on its longest walk. */
  lemma OffsetIsLongest<M>(g: Graph<M>, v: nat, k: nat)
    requires Mirrored(g) && !Cyclic(g) && v < |g| && Layer(g, k + 1) == {}
    ensures LongestFrom(g, v, Offset(g, v, k))
  {
    var m := Offset(g, v, k);
    forall p | Walk(g, p) && p[0] == v
      ensures |p| <= m
    {
      var q := ContinueToSink(g, p);
      WalkIsInLayer(g, q);
      if |q| - 1 > k {
        EmptyFrom(g, k + 1, |q| - 1);
      }
    }
    assert Walk(g, [v]) && [v][0] == v;
    var p := LayerHasWalk(g, m - 1, v);
    assert Walk(g, p) && p[0] == v && |p| == m;
  }

  lemma LongestIsUnique<M>(g: Graph<M>, v: nat, a: nat, b: nat)
    requires LongestFrom(g, v, a) && LongestFrom(g, v, b)
    ensures a == b
  {
  }

  lemma LongestShrinksAlongEdges<M>(g: Graph<M>, d: nat, n: nat, a: nat, b: nat)
    requires Edge(g, d, n) && LongestFrom(g, d, a) && LongestFrom(g, n, b)
    ensures b < a
  {
    var p :| Walk(g, p) && p[0] == n && |p| == b;
    PrependWalk(g, d, p);
    assert ([d] + p)[0] == d;
  }

  /** Along the longest walk of the graph every length below the longest is taken. */
  lemma EveryLengthOccurs<M>(g: Graph<M>, v: nat, m: nat, i: nat) returns (u: nat)
    requires LongestFrom(g, v, m) && 0 < i <= m
    ensures u < |g| && LongestFrom(g, u, i)
  {
    var p :| Walk(g, p) && p[0] == v && |p| == m;
    u := p[m - i];
    SubWalk(g, p, m - i, m);
    assert Walk(g, p[m - i..m]) && p[m - i..m][0] == u && |p[m - i..m]| == i;
    forall q | Walk(g, q) && q[0] == u
      ensures |q| <= i
    {
      var r := JoinWalks(g, p[..m - i], q);
      assert r[0] == v;
    }
  }

  lemma JoinWalks<M>(g: Graph<M>, a: seq<nat>, q: seq<nat>) returns (r: seq<nat>)
    requires Walk(g, q)
    requires a == [] || (Walk(g, a) && Edge(g, a[|a| - 1], q[0]))
    ensures r == a + q && Walk(g, r)
  {
    r := a + q;
    forall k | 0 <= k < |r| - 1
      ensures Edge(g, r[k], r[k + 1])
    {
      if k >= |a| {
        assert Edge(g, q[k - |a|], q[k - |a| + 1]);
      } else if k < |a| - 1 {
        assert Edge(g, a[k], a[k + 1]);
      }
    }
  }
}
