/** What the answer of the route means in terms of walks of the request's graph.

    K is the key set of `distances`: the listed vertices plus `source`. Edges with an
    endpoint outside K are inert, so walks are taken over the others.
    - Every finite distance is the weight of some walk from the source (soundness).
    - When `hasNegativeCycle` is false, every distance is the least weight of a walk from
      the source, and `Inf` exactly when there is none.
    - A negative closed walk reachable from the source always sets `hasNegativeCycle`.
    - Conversely, when the source is one of the listed vertices, `hasNegativeCycle` is set
      only if there is such a walk. */
module BellmanFordCorrectness {
  import opened JsValues
  import opened GraphModel
  import opened BellmanFordSpec
  import opened BellmanFordProps
  import opened Walks

  function Keys(vertices: seq<JsString>, source: JsString): set<JsString> {
    (set v | v in vertices) + {source}
  }

  /** Every finite distance is the weight of a walk from `s`. */
  ghost predicate Sound(es: seq<Edge>, K: set<JsString>, s: JsString, d: Distances) {
    forall v :: v in d && d[v].Fin? ==> exists p :: IsWalk(es, K, s, v, p) && Weight(p) == d[v].n
  }

  /** `x` is the least weight of a walk from `s` to `t`, and `Inf` if there is none. */
  ghost predicate IsShortest(es: seq<Edge>, K: set<JsString>, s: JsString, t: JsString, x: ExtInt) {
    (x.Fin? ==> exists p :: IsWalk(es, K, s, t, p) && Weight(p) == x.n)
    && forall p :: IsWalk(es, K, s, t, p) ==> Le(x, Fin(Weight(p)))
  }

  lemma RelaxSound(es: seq<Edge>, K: set<JsString>, s: JsString, t: Tables, e: Edge)
    requires e in es && t.dist.Keys == K && Sound(es, K, s, t.dist)
    ensures Sound(es, K, s, Relax(t, e).dist)
  {
    if CanRelax(t.dist, e) {
      var d := Relax(t, e).dist;
      var u, v := e.source, e.destination;
      var pu :| IsWalk(es, K, s, u, pu) && Weight(pu) == t.dist[u].n;
      assert IsWalk(es, K, u, v, [e]);
      WalkAppend(es, K, s, u, v, pu, [e]);
      assert Weight([e]) == e.weight;
      forall x | x in d && d[x].Fin?
        ensures exists p :: IsWalk(es, K, s, x, p) && Weight(p) == d[x].n
      {
        if x == v {
          assert IsWalk(es, K, s, x, pu + [e]) && Weight(pu + [e]) == d[x].n;
        }
      }
    }
  }

  lemma {:induction false} RelaxSeqSound(es: seq<Edge>, K: set<JsString>, s: JsString,
                                         t: Tables, round: seq<Edge>)
    requires forall k :: 0 <= k < |round| ==> round[k] in es
    requires t.dist.Keys == K && Sound(es, K, s, t.dist)
    ensures Sound(es, K, s, RelaxSeq(t, round).dist)
    decreases |round|
  {
    if round != [] {
      var init := round[..|round| - 1];
      RelaxSeqSound(es, K, s, t, init);
      RelaxSeqNoHigher(t, init);
      RelaxSound(es, K, s, RelaxSeq(t, init), round[|round| - 1]);
    }
  }

  lemma {:induction false} RoundsSound(es: seq<Edge>, K: set<JsString>, s: JsString, t: Tables, k: nat)
    requires t.dist.Keys == K && Sound(es, K, s, t.dist)
    ensures Sound(es, K, s, Rounds(t, es, k).dist)
  {
    if k > 0 {
      RoundsSound(es, K, s, t, k - 1);
      RoundsNoHigher(t, es, k - 1);
      RelaxSeqSound(es, K, s, Rounds(t, es, k - 1), es);
    }
  }

  /** Soundness of the answer: each finite distance is the weight of a walk from the source. */
  lemma RunSound(vertices: seq<JsString>, es: seq<Edge>, source: JsString)
    ensures Sound(es, Keys(vertices, source), source, Run(vertices, es, source).distances)
  {
    var t0 := Initial(vertices, source);
    var K := Keys(vertices, source);
    assert IsWalk(es, K, source, source, []);
    assert Sound(es, K, source, t0.dist);
    RoundsSound(es, K, source, t0, RoundCount(vertices));
  }

  /** With the source at 0 or below and no relaxable edge left, no walk from the source is
      lighter than the distance of its target. */
  lemma {:induction false} StableBound(es: seq<Edge>, K: set<JsString>, s: JsString, d: Distances,
                                       t: JsString, p: seq<Edge>)
    requires d.Keys == K && s in K && Le(d[s], Fin(0)) && !HasRelaxable(d, es)
    requires IsWalk(es, K, s, t, p)
    ensures Le(d[t], Fin(Weight(p)))
    decreases |p|
  {
    if p != [] {
      var q, e := LastEdge(es, K, s, t, p);
      StableBound(es, K, s, d, e.source, q);
      var k :| 0 <= k < |es| && es[k] == e;
      assert !CanRelax(d, es[k]);
    }
  }

  /** Without the negative-cycle flag, every distance is the least walk weight, and `Inf`
      exactly for the vertices that no walk from the source reaches. */
  lemma NoFlagMeansShortest(vertices: seq<JsString>, es: seq<Edge>, source: JsString, t: JsString)
    requires !Run(vertices, es, source).hasNegativeCycle
    requires t in Run(vertices, es, source).distances
    ensures IsShortest(es, Keys(vertices, source), source, t, Run(vertices, es, source).distances[t])
  {
    var r := Run(vertices, es, source);
    var K := Keys(vertices, source);
    RunKeys(vertices, es, source);
    RunNoHigherThanInitial(vertices, es, source);
    RunSound(vertices, es, source);
    forall p | IsWalk(es, K, source, t, p) ensures Le(r.distances[t], Fin(Weight(p))) {
      StableBound(es, K, source, r.distances, t, p);
    }
  }

  /** A negative closed walk reachable from the source always raises the flag. */
  lemma NegativeCycleFlagged(vertices: seq<JsString>, es: seq<Edge>, source: JsString,
                             x: JsString, p: seq<Edge>, c: seq<Edge>)
    requires IsWalk(es, Keys(vertices, source), source, x, p)
    requires IsWalk(es, Keys(vertices, source), x, x, c) && Weight(c) < 0
    ensures Run(vertices, es, source).hasNegativeCycle
  {
    var r := Run(vertices, es, source);
    var K := Keys(vertices, source);
    if !r.hasNegativeCycle {
      var d := r.distances;
      RunKeys(vertices, es, source);
      RunNoHigherThanInitial(vertices, es, source);
      StableBound(es, K, source, d, x, p);
      var k: nat := Weight(p) - d[x].n + 1;
      RepeatNegative(es, K, x, c, k);
      WalkAppend(es, K, source, x, x, p, Repeat(c, k));
      StableBound(es, K, source, d, x, p + Repeat(c, k));
      assert false;
    }
  }

  /** A round visits every edge: afterwards the target of an edge is no higher than the
      origin's distance before the round plus the edge weight. */
  lemma RoundRelaxesEdge(before: Tables, es: seq<Edge>, e: Edge, w: int)
    requires e in es && e.source in before.dist && e.destination in before.dist
    requires Le(before.dist[e.source], Fin(w))
    ensures e.destination in RelaxSeq(before, es).dist
    ensures Le(RelaxSeq(before, es).dist[e.destination], Fin(w + e.weight))
  {
    var j :| 0 <= j < |es| && es[j] == e;
    var next := RelaxSeq(before, es[..j + 1]);
    PrefixRelaxesEdge(before, es, j, w);
    assert es == es[..j + 1] + es[j + 1..];
    RelaxSeqAppend(before, es[..j + 1], es[j + 1..]);
    RoundKeepsBound(next, es[j + 1..], e.destination, Fin(w + e.weight));
  }

  /** The prefix of a round that ends with the visit of `es[j]`. */
  lemma PrefixRelaxesEdge(before: Tables, es: seq<Edge>, j: nat, w: int)
    requires j < |es| && es[j].source in before.dist && es[j].destination in before.dist
    requires Le(before.dist[es[j].source], Fin(w))
    ensures es[j].destination in RelaxSeq(before, es[..j + 1]).dist
    ensures Le(RelaxSeq(before, es[..j + 1]).dist[es[j].destination], Fin(w + es[j].weight))
  {
    var e := es[j];
    var mid := RelaxSeq(before, es[..j]);
    RelaxSeqNoHigher(before, es[..j]);
    LeTransitive(mid.dist[e.source], before.dist[e.source], Fin(w));
    assert es[..j + 1][..j] == es[..j];
    assert RelaxSeq(before, es[..j + 1]) == Relax(mid, e);
    LeTransitive(Relax(mid, e).dist[e.destination], Fin(mid.dist[e.source].n + e.weight), Fin(w + e.weight));
  }

  /** A round never raises a distance above a bound it already meets. */
  lemma RoundKeepsBound(before: Tables, es: seq<Edge>, t: JsString, x: ExtInt)
    requires t in before.dist && Le(before.dist[t], x)
    ensures t in RelaxSeq(before, es).dist && Le(RelaxSeq(before, es).dist[t], x)
  {
    RelaxSeqNoHigher(before, es);
    LeTransitive(RelaxSeq(before, es).dist[t], before.dist[t], x);
  }

  /** After k rounds, no walk of at most k edges from the source is lighter than the distance
      of its target. */
  lemma {:induction false} RoundsBound(t0: Tables, es: seq<Edge>, k: nat, s: JsString,
                                       t: JsString, p: seq<Edge>)
    requires s in t0.dist && Le(t0.dist[s], Fin(0))
    requires IsWalk(es, t0.dist.Keys, s, t, p) && |p| <= k
    ensures t in Rounds(t0, es, k).dist && Le(Rounds(t0, es, k).dist[t], Fin(Weight(p)))
    decreases k
  {
    if k > 0 {
      var before := Rounds(t0, es, k - 1);
      if |p| <= k - 1 {
        RoundsBound(t0, es, k - 1, s, t, p);
        RoundKeepsBound(before, es, t, Fin(Weight(p)));
      } else {
        var q, e := LastEdge(es, t0.dist.Keys, s, t, p);
        RoundsBound(t0, es, k - 1, s, e.source, q);
        RoundsNoHigher(t0, es, k - 1);
        RoundRelaxesEdge(before, es, e, Weight(q));
      }
    }
  }

  /** The last-step argument for one edge: with no negative cycle reachable from the source,
      an edge out of a reached vertex cannot be relaxed after |K| - 1 rounds. */
  lemma EdgeStable(vertices: seq<JsString>, es: seq<Edge>, source: JsString, e: Edge)
    requires NoNegativeCycleFrom(es, Keys(vertices, source), source)
    requires |Keys(vertices, source)| - 1 <= RoundCount(vertices)
    requires e in es
    ensures !CanRelax(Run(vertices, es, source).distances, e)
  {
    var K := Keys(vertices, source);
    var d := Run(vertices, es, source).distances;
    if e.source in d && e.destination in d && d[e.source].Fin? {
      var q := ShortWalkThrough(vertices, es, source, e);
      RoundsBound(Initial(vertices, source), es, RoundCount(vertices), source, e.destination, q);
    }
  }

  /** A walk of at most |K| - 1 edges from the source to the target of `e`, no heavier than
      the distance of the origin of `e` plus its weight. */
  lemma ShortWalkThrough(vertices: seq<JsString>, es: seq<Edge>, source: JsString, e: Edge)
    returns (q: seq<Edge>)
    requires NoNegativeCycleFrom(es, Keys(vertices, source), source)
    requires e in es
    requires e.source in Run(vertices, es, source).distances
    requires e.destination in Run(vertices, es, source).distances
    requires Run(vertices, es, source).distances[e.source].Fin?
    ensures IsWalk(es, Initial(vertices, source).dist.Keys, source, e.destination, q)
    ensures |q| <= |Keys(vertices, source)| - 1
    ensures Weight(q) <= Run(vertices, es, source).distances[e.source].n + e.weight
  {
    var K := Keys(vertices, source);
    var d := Run(vertices, es, source).distances;
    RunKeys(vertices, es, source);
    RunSound(vertices, es, source);
    var pu :| IsWalk(es, K, source, e.source, pu) && Weight(pu) == d[e.source].n;
    assert IsWalk(es, K, e.source, e.destination, [e]);
    WalkAppend(es, K, source, e.source, e.destination, pu, [e]);
    assert Weight([e]) == e.weight;
    q := ShortenWalk(es, K, source, e.destination, pu + [e]);
  }

  /** With no negative cycle reachable from the source and at least |K| - 1 rounds, no edge
      is relaxable at the end. */
  lemma NoNegativeCycleStable(vertices: seq<JsString>, es: seq<Edge>, source: JsString)
    requires NoNegativeCycleFrom(es, Keys(vertices, source), source)
    requires |Keys(vertices, source)| - 1 <= RoundCount(vertices)
    ensures !Run(vertices, es, source).hasNegativeCycle
  {
    forall k | 0 <= k < |es| ensures !CanRelax(Run(vertices, es, source).distances, es[k]) {
      EdgeStable(vertices, es, source, es[k]);
    }
  }

  /** When the source is a listed vertex, K has at most |vertices| elements, so the |V| - 1
      rounds suffice: no negative cycle reachable from the source means no flag. */
  lemma ListedSourceNoNegativeCycleNoFlag(vertices: seq<JsString>, es: seq<Edge>, source: JsString)
    requires source in vertices
    requires NoNegativeCycleFrom(es, Keys(vertices, source), source)
    ensures !Run(vertices, es, source).hasNegativeCycle
  {
    assert Keys(vertices, source) == set v | v in vertices;
    DistinctCount(vertices);
    NoNegativeCycleStable(vertices, es, source);
  }

  /** A list has at least as many entries as distinct values. */
  lemma {:induction false} DistinctCount(xs: seq<JsString>)
    ensures |set v | v in xs| <= |xs|
    decreases |xs|
  {
    if xs != [] {
      var rest := xs[..|xs| - 1];
      DistinctCount(rest);
      assert (set v | v in xs) == (set v | v in rest) + {xs[|xs| - 1]};
    }
  }

  /** Without the flag the source keeps distance 0 and never gets a predecessor. */
  lemma NoFlagSourceUnchanged(vertices: seq<JsString>, es: seq<Edge>, source: JsString)
    requires !Run(vertices, es, source).hasNegativeCycle
    ensures source in Run(vertices, es, source).distances
    ensures Run(vertices, es, source).distances[source] == Fin(0)
    ensures source in Run(vertices, es, source).predecessors ==>
              Run(vertices, es, source).predecessors[source] == None
  {
    var r := Run(vertices, es, source);
    var K := Keys(vertices, source);
    RunKeys(vertices, es, source);
    RunNoHigherThanInitial(vertices, es, source);
    RunSound(vertices, es, source);
    RunPredecessorsBelow(vertices, es, source);
    var c :| IsWalk(es, K, source, source, c) && Weight(c) == r.distances[source].n;
    if Weight(c) < 0 {
      assert IsWalk(es, K, source, source, []);
      NegativeCycleFlagged(vertices, es, source, source, [], c);
    }
  }

  /** Without the flag every predecessor link `u -> v` is tight: some edge `u -> v` of the
      request has `distances[u] + weight == distances[v]`. */
  lemma NoFlagPredecessorEdgesTight(vertices: seq<JsString>, es: seq<Edge>, source: JsString,
                                    v: JsString)
    requires !Run(vertices, es, source).hasNegativeCycle
    requires v in Run(vertices, es, source).predecessors
    requires Run(vertices, es, source).predecessors[v].Some?
    ensures exists k :: 0 <= k < |es| && Tight(Run(vertices, es, source).distances, es[k])
                        && es[k].source == Run(vertices, es, source).predecessors[v].value
                        && es[k].destination == v
  {
    var r := Run(vertices, es, source);
    RunPredecessorEdges(vertices, es, source);
    var u := r.predecessors[v].value;
    var k :| 0 <= k < |es| && es[k].source == u && es[k].destination == v
             && r.distances[u].n + es[k].weight <= r.distances[v].n;
    assert !CanRelax(r.distances, es[k]);
  }

  /** Both endpoints are reached and the edge realises the distance of its target. */
  predicate Tight(d: Distances, e: Edge) {
    e.source in d && e.destination in d && d[e.source].Fin? && d[e.destination].Fin?
    && d[e.source].n + e.weight == d[e.destination].n
  }
}
