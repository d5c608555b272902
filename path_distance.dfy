/** The path column agrees with the distance column: when the route reports no negative
    cycle and `getPath` walks back to the source, the listed vertices are joined by edges of
    the request whose weights add up to the reported distance. */
module PathDistance {
  import opened JsValues
  import opened GraphModel
  import opened BellmanFordSpec
  import opened BellmanFordProps
  import opened Walks
  import opened BellmanFordCorrectness
  import opened PathReconstruction
  import opened PredecessorCycles

  /** `getPath`'s walk reached the source without stopping on `null` or a repeat. */
  predicate ReachedSource(preds: Predecessors, source: JsString, vertex: JsString, nodes: seq<Slot>) {
    TracedBack(preds, source, vertex, nodes) && Lookup(preds, nodes[1]) == Name(source)
  }

  /** Every entry of such a walk over the answer's predecessors names a key of `distances`. */
  lemma {:induction false} NodesAreKeys(vertices: seq<JsString>, es: seq<Edge>, source: JsString,
                                        v: JsString, nodes: seq<Slot>, i: nat)
    requires v in Run(vertices, es, source).distances
    requires ReachedSource(Run(vertices, es, source).predecessors, source, v, nodes)
    requires i < |nodes|
    ensures nodes[i].Name? && nodes[i].name in Run(vertices, es, source).distances
    decreases |nodes| - i
  {
    var r := Run(vertices, es, source);
    if 0 < i < |nodes| - 1 || i == 0 {
      if i == 0 {
        RunKeys(vertices, es, source);
      } else {
        NodesAreKeys(vertices, es, source, v, nodes, i + 1);
        var x := nodes[i + 1].name;
        assert x != source by {
          assert nodes[0] == Name(source) && i + 1 > 0;
        }
        RunKeys(vertices, es, source);
        RunPredecessorsConsistent(vertices, es, source);
        assert nodes[i] == Lookup(r.predecessors, nodes[i + 1]);
      }
    }
  }

  /** Entry i - 1 of such a walk is the predecessor of entry i, through a tight edge. */
  lemma TightLink(vertices: seq<JsString>, es: seq<Edge>, source: JsString,
                  v: JsString, nodes: seq<Slot>, i: nat) returns (e: Edge)
    requires !Run(vertices, es, source).hasNegativeCycle
    requires v in Run(vertices, es, source).distances
    requires ReachedSource(Run(vertices, es, source).predecessors, source, v, nodes)
    requires 0 < i < |nodes|
    ensures nodes[i - 1] == Name(e.source) && nodes[i] == Name(e.destination)
    ensures e in es && Tight(Run(vertices, es, source).distances, e)
  {
    var r := Run(vertices, es, source);
    NodesAreKeys(vertices, es, source, v, nodes, i);
    NodesAreKeys(vertices, es, source, v, nodes, i - 1);
    RunKeys(vertices, es, source);
    var y, x := nodes[i - 1].name, nodes[i].name;
    assert x in r.predecessors by {
      assert x != source by {
        assert nodes[0] == Name(source) && i > 0;
      }
    }
    assert nodes[i - 1] == Lookup(r.predecessors, nodes[i]) by {
      if i - 1 >= 1 {
        assert Linked(r.predecessors, nodes, 1);
      }
    }
    assert r.predecessors[x] == Some(y);
    NoFlagPredecessorEdgesTight(vertices, es, source, x);
    var k :| 0 <= k < |es| && Tight(r.distances, es[k]) && es[k].source == y && es[k].destination == x;
    e := es[k];
  }

  /** With no negative-cycle flag, the first i + 1 entries of a walk that reached the source
      are the vertices of a walk of the request from the source, of i edges, whose weight is
      the distance of entry i. */
  lemma {:induction false} PrefixWalk(vertices: seq<JsString>, es: seq<Edge>, source: JsString,
                                      v: JsString, nodes: seq<Slot>, i: nat) returns (p: seq<Edge>)
    requires !Run(vertices, es, source).hasNegativeCycle
    requires v in Run(vertices, es, source).distances
    requires ReachedSource(Run(vertices, es, source).predecessors, source, v, nodes)
    requires i < |nodes|
    ensures nodes[i].Name? && nodes[i].name in Run(vertices, es, source).distances
    ensures Run(vertices, es, source).distances[nodes[i].name].Fin?
    ensures IsWalk(es, Keys(vertices, source), source, nodes[i].name, p) && |p| == i
    ensures forall k :: 0 <= k < i ==> nodes[k] == Name(p[k].source) && nodes[k + 1] == Name(p[k].destination)
    ensures Weight(p) == Run(vertices, es, source).distances[nodes[i].name].n
  {
    var K := Keys(vertices, source);
    RunKeys(vertices, es, source);
    if i == 0 {
      NoFlagSourceUnchanged(vertices, es, source);
      p := [];
      assert IsWalk(es, K, source, source, p);
    } else {
      var q := PrefixWalk(vertices, es, source, v, nodes, i - 1);
      p := PrefixStep(vertices, es, source, v, nodes, i, q);
    }
  }

  /** The step of `PrefixWalk`: the walk for entry i - 1 extended by the tight edge into
      entry i. */
  lemma PrefixStep(vertices: seq<JsString>, es: seq<Edge>, source: JsString,
                   v: JsString, nodes: seq<Slot>, i: nat, q: seq<Edge>) returns (p: seq<Edge>)
    requires !Run(vertices, es, source).hasNegativeCycle
    requires v in Run(vertices, es, source).distances
    requires ReachedSource(Run(vertices, es, source).predecessors, source, v, nodes)
    requires 0 < i < |nodes|
    requires nodes[i - 1].Name? && nodes[i - 1].name in Run(vertices, es, source).distances
    requires Run(vertices, es, source).distances[nodes[i - 1].name].Fin?
    requires IsWalk(es, Keys(vertices, source), source, nodes[i - 1].name, q) && |q| == i - 1
    requires forall k :: 0 <= k < i - 1 ==> nodes[k] == Name(q[k].source) && nodes[k + 1] == Name(q[k].destination)
    requires Weight(q) == Run(vertices, es, source).distances[nodes[i - 1].name].n
    ensures nodes[i].Name? && nodes[i].name in Run(vertices, es, source).distances
    ensures Run(vertices, es, source).distances[nodes[i].name].Fin?
    ensures IsWalk(es, Keys(vertices, source), source, nodes[i].name, p) && |p| == i
    ensures forall k :: 0 <= k < i ==> nodes[k] == Name(p[k].source) && nodes[k + 1] == Name(p[k].destination)
    ensures Weight(p) == Run(vertices, es, source).distances[nodes[i].name].n
  {
    var K := Keys(vertices, source);
    var d := Run(vertices, es, source).distances;
    RunKeys(vertices, es, source);
    var e := TightLink(vertices, es, source, v, nodes, i);
    assert d.Keys == K;
    assert nodes[i - 1].name == e.source && nodes[i].name == e.destination;
    assert d[e.source].n + e.weight == d[e.destination].n;
    p := ExtendPrefix(es, K, source, nodes, q, e, i);
  }

  /** A walk along the first i entries, extended by the edge from entry i - 1 to entry i. */
  lemma ExtendPrefix(es: seq<Edge>, K: set<JsString>, source: JsString, nodes: seq<Slot>,
                     q: seq<Edge>, e: Edge, i: nat) returns (p: seq<Edge>)
    requires 0 < i < |nodes| && nodes[i - 1] == Name(e.source) && nodes[i] == Name(e.destination)
    requires e in es && e.source in K && e.destination in K
    requires IsWalk(es, K, source, e.source, q) && |q| == i - 1
    requires forall k :: 0 <= k < i - 1 ==> nodes[k] == Name(q[k].source) && nodes[k + 1] == Name(q[k].destination)
    ensures IsWalk(es, K, source, e.destination, p) && |p| == i
    ensures forall k :: 0 <= k < i ==> nodes[k] == Name(p[k].source) && nodes[k + 1] == Name(p[k].destination)
    ensures Weight(p) == Weight(q) + e.weight
  {
    assert IsWalk(es, K, e.source, e.destination, [e]);
    WalkAppend(es, K, source, e.source, e.destination, q, [e]);
    assert Weight([e]) == e.weight;
    p := q + [e];
    forall k | 0 <= k < i ensures nodes[k] == Name(p[k].source) && nodes[k + 1] == Name(p[k].destination) {
      if k < i - 1 {
        assert p[k] == q[k];
      }
    }
  }

  /** Path/distance consistency: without the flag, when `getPath` for a vertex of the answer
      ends at the source, the vertices it lists are those of a walk of the request whose
      weight is the reported distance of the vertex. */
  lemma PathWeightIsDistance(vertices: seq<JsString>, es: seq<Edge>, source: JsString,
                             v: JsString, nodes: seq<Slot>)
    requires !Run(vertices, es, source).hasNegativeCycle
    requires v in Run(vertices, es, source).distances
    requires ReachedSource(Run(vertices, es, source).predecessors, source, v, nodes)
    ensures Run(vertices, es, source).distances[v].Fin?
    ensures exists p: seq<Edge> :: IsWalk(es, Keys(vertices, source), source, v, p) && |p| == |nodes| - 1
                        && (forall k :: 0 <= k < |p| ==>
                              nodes[k] == Name(p[k].source) && nodes[k + 1] == Name(p[k].destination))
                        && Weight(p) == Run(vertices, es, source).distances[v].n
  {
    var p := PrefixWalk(vertices, es, source, v, nodes, |nodes| - 1);
  }

  /** After its first entry, the walk `getPath` collects for a vertex other than the source
      with a finite distance visits only such vertices. */
  lemma {:induction false} TracedNamesFinite(vertices: seq<JsString>, es: seq<Edge>, source: JsString,
                                             v: JsString, nodes: seq<Slot>, i: nat)
    requires v in Run(vertices, es, source).distances && v != source
    requires Run(vertices, es, source).distances[v].Fin?
    requires TracedBack(Run(vertices, es, source).predecessors, source, v, nodes)
    requires 1 <= i < |nodes|
    ensures nodes[i].Name? && nodes[i].name in Run(vertices, es, source).distances
    ensures nodes[i].name != source && Run(vertices, es, source).distances[nodes[i].name].Fin?
    ensures nodes[i].name in Run(vertices, es, source).predecessors
    ensures Run(vertices, es, source).predecessors[nodes[i].name].Some?
    decreases |nodes| - i
  {
    var r := Run(vertices, es, source);
    RunFiniteHavePredecessors(vertices, es, source);
    if i < |nodes| - 1 {
      TracedNamesFinite(vertices, es, source, v, nodes, i + 1);
      var x := nodes[i + 1].name;
      assert nodes[i] == Lookup(r.predecessors, nodes[i + 1]);
      RunPredecessorEdges(vertices, es, source);
      assert nodes[i] != nodes[0];
    }
  }

  /** When the walk stops because the lookup of its second entry gives back entry m, the
      entries 1 to m form a cycle of predecessor links. */
  lemma RevisitIsCycle(preds: Predecessors, source: JsString, v: JsString, nodes: seq<Slot>, m: nat)
    returns (xs: seq<JsString>)
    requires TracedBack(preds, source, v, nodes)
    requires forall k :: 1 <= k < |nodes| ==>
               nodes[k].Name? && nodes[k].name in preds && preds[nodes[k].name].Some?
    requires 1 <= m < |nodes| && Lookup(preds, nodes[1]) == nodes[m]
    ensures PredCycle(preds, xs)
  {
    xs := seq(m, k requires 0 <= k < m => nodes[k + 1].name);
    forall k | 1 <= k < |xs| ensures preds[xs[k]] == Some(xs[k - 1]) {
      assert nodes[k] == Lookup(preds, nodes[k + 1]);
    }
    forall a, b | 0 <= a < b < |xs| ensures xs[a] != xs[b] {
      assert nodes[a + 1] != nodes[b + 1];
    }
  }

  /** Without the negative-cycle flag, `getPath` for a vertex with a finite distance walks
      all the way back to the source: it meets no `null`, since every reached vertex but the
      source has a predecessor, and no repeat, since the links form no cycle. */
  lemma WalkReachesSource(vertices: seq<JsString>, es: seq<Edge>, source: JsString,
                          v: JsString, nodes: seq<Slot>)
    requires !Run(vertices, es, source).hasNegativeCycle
    requires v in Run(vertices, es, source).distances && v != source
    requires Run(vertices, es, source).distances[v].Fin?
    requires TracedBack(Run(vertices, es, source).predecessors, source, v, nodes)
    ensures ReachedSource(Run(vertices, es, source).predecessors, source, v, nodes)
  {
    var preds := Run(vertices, es, source).predecessors;
    forall k | 1 <= k < |nodes|
      ensures nodes[k].Name? && nodes[k].name in preds && preds[nodes[k].name].Some?
    {
      TracedNamesFinite(vertices, es, source, v, nodes, k);
    }
    var y := preds[nodes[1].name].value;
    assert Lookup(preds, nodes[1]) == Name(y);
    if y != source {
      var m' :| 0 <= m' < |nodes[1..]| && nodes[1..][m'] == Name(y);
      var xs := RevisitIsCycle(preds, source, v, nodes, m' + 1);
      NoFlagNoPredecessorCycle(vertices, es, source, xs);
    }
  }

  /** Path/distance consistency for every vertex the answer reaches: without the flag, the
      path `getPath` shows for a vertex other than the source with a finite distance lists
      the vertices of a walk of the request from the source whose weight is that distance. */
  lemma FinitePathWeightIsDistance(vertices: seq<JsString>, es: seq<Edge>, source: JsString,
                                   v: JsString, nodes: seq<Slot>)
    requires !Run(vertices, es, source).hasNegativeCycle
    requires v in Run(vertices, es, source).distances && v != source
    requires Run(vertices, es, source).distances[v].Fin?
    requires TracedBack(Run(vertices, es, source).predecessors, source, v, nodes)
    ensures exists p: seq<Edge> :: IsWalk(es, Keys(vertices, source), source, v, p) && |p| == |nodes| - 1
                        && (forall k :: 0 <= k < |p| ==>
                              nodes[k] == Name(p[k].source) && nodes[k + 1] == Name(p[k].destination))
                        && Weight(p) == Run(vertices, es, source).distances[v].n
  {
    WalkReachesSource(vertices, es, source, v, nodes);
    PathWeightIsDistance(vertices, es, source, v, nodes);
  }
}
