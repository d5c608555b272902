/** Invariants of the relaxation loop of backend/src/routes/algorithmRoutes.js:
    distances only go down, keys are never added to `distances`, and a vertex
    with a predecessor has a finite distance, as has its predecessor. */
module BellmanFordProps {
  import opened JsValues
  import opened GraphModel
  import opened BellmanFordSpec

  /** `after` has the keys of `before` and no distance in it is higher. */
  predicate NoHigher(after: Distances, before: Distances) {
    after.Keys == before.Keys && forall v :: v in before ==> Le(after[v], before[v])
  }

  /** Every predecessor entry is a key of `distances`; a non-null one belongs to a vertex
      with a finite distance and names a vertex with a finite distance. */
  predicate PredecessorsConsistent(t: Tables) {
    t.pred.Keys <= t.dist.Keys
    && forall v :: v in t.pred && t.pred[v].Some? ==>
         t.dist[v].Fin? && t.pred[v].value in t.dist && t.dist[t.pred[v].value].Fin?
  }

  lemma LeTransitive(a: ExtInt, b: ExtInt, c: ExtInt)
    requires Le(a, b) && Le(b, c)
    ensures Le(a, c)
  {
  }

  /** A round (or any prefix of one) adds no key to `distances`, raises no distance, and
      adds to `predecessors` only keys of `distances`. */
  lemma {:induction false} RelaxSeqNoHigher(t: Tables, es: seq<Edge>)
    ensures NoHigher(RelaxSeq(t, es).dist, t.dist)
    ensures t.pred.Keys <= RelaxSeq(t, es).pred.Keys <= t.pred.Keys + t.dist.Keys
    decreases |es|
  {
    if es != [] {
      var mid := RelaxSeq(t, es[..|es| - 1]);
      RelaxSeqNoHigher(t, es[..|es| - 1]);
      var r := Relax(mid, es[|es| - 1]);
      forall v | v in t.dist ensures Le(r.dist[v], t.dist[v]) {
        LeTransitive(r.dist[v], mid.dist[v], t.dist[v]);
      }
    }
  }

  /** Any number of rounds: same guarantees. */
  lemma {:induction false} RoundsNoHigher(t: Tables, es: seq<Edge>, k: nat)
    ensures NoHigher(Rounds(t, es, k).dist, t.dist)
    ensures t.pred.Keys <= Rounds(t, es, k).pred.Keys <= t.pred.Keys + t.dist.Keys
  {
    if k > 0 {
      var mid := Rounds(t, es, k - 1);
      RoundsNoHigher(t, es, k - 1);
      RelaxSeqNoHigher(mid, es);
      var r := RelaxSeq(mid, es);
      forall v | v in t.dist ensures Le(r.dist[v], t.dist[v]) {
        LeTransitive(r.dist[v], mid.dist[v], t.dist[v]);
      }
    }
  }

  /** Running a prefix of the edges and then the rest is running all of them. */
  lemma {:induction false} RelaxSeqAppend(t: Tables, a: seq<Edge>, b: seq<Edge>)
    ensures RelaxSeq(t, a + b) == RelaxSeq(RelaxSeq(t, a), b)
    decreases |b|
  {
    if b == [] {
      assert a + b == a;
    } else {
      assert (a + b)[..|a + b| - 1] == a + b[..|b| - 1];
      assert (a + b)[|a + b| - 1] == b[|b| - 1];
      RelaxSeqAppend(t, a, b[..|b| - 1]);
    }
  }

  lemma RelaxConsistent(t: Tables, e: Edge)
    requires PredecessorsConsistent(t)
    ensures PredecessorsConsistent(Relax(t, e))
  {
  }

  lemma {:induction false} RelaxSeqConsistent(t: Tables, es: seq<Edge>)
    requires PredecessorsConsistent(t)
    ensures PredecessorsConsistent(RelaxSeq(t, es))
    decreases |es|
  {
    if es != [] {
      RelaxSeqConsistent(t, es[..|es| - 1]);
      RelaxConsistent(RelaxSeq(t, es[..|es| - 1]), es[|es| - 1]);
    }
  }

  lemma {:induction false} RoundsConsistent(t: Tables, es: seq<Edge>, k: nat)
    requires PredecessorsConsistent(t)
    ensures PredecessorsConsistent(Rounds(t, es, k))
  {
    if k > 0 {
      RoundsConsistent(t, es, k - 1);
      RelaxSeqConsistent(Rounds(t, es, k - 1), es);
    }
  }

  /** The key sets of the answer: `distances` has exactly the listed vertices plus `source`;
      `predecessors` has every listed vertex and possibly `source`, which is added only when
      an edge into an unlisted source is relaxed. */
  lemma RunKeys(vertices: seq<JsString>, es: seq<Edge>, source: JsString)
    ensures Run(vertices, es, source).distances.Keys == (set v | v in vertices) + {source}
    ensures (set v | v in vertices) <= Run(vertices, es, source).predecessors.Keys
    ensures Run(vertices, es, source).predecessors.Keys <= (set v | v in vertices) + {source}
  {
    RoundsNoHigher(Initial(vertices, source), es, RoundCount(vertices));
  }

  /** No final distance is above its initial value; in particular the source ends at 0 or below. */
  lemma RunNoHigherThanInitial(vertices: seq<JsString>, es: seq<Edge>, source: JsString)
    ensures NoHigher(Run(vertices, es, source).distances, Initial(vertices, source).dist)
    ensures Run(vertices, es, source).distances[source].Fin?
    ensures Run(vertices, es, source).distances[source].n <= 0
  {
    RoundsNoHigher(Initial(vertices, source), es, RoundCount(vertices));
  }

  /** Any vertex with a non-null predecessor has a finite distance, and so has the predecessor. */
  lemma RunPredecessorsConsistent(vertices: seq<JsString>, es: seq<Edge>, source: JsString)
    ensures PredecessorsConsistent(Tables(Run(vertices, es, source).distances,
                                          Run(vertices, es, source).predecessors))
  {
    RoundsConsistent(Initial(vertices, source), es, RoundCount(vertices));
  }

  /** With at most one listed vertex no round runs: the answer holds the initial tables. */
  lemma RunWithoutRounds(vertices: seq<JsString>, es: seq<Edge>, source: JsString)
    requires |vertices| <= 1
    ensures Run(vertices, es, source).distances == Initial(vertices, source).dist
    ensures Run(vertices, es, source).predecessors == Initial(vertices, source).pred
  {
  }

  /** A round in which no edge is relaxable changes nothing. */
  lemma {:induction false} StableRoundChangesNothing(t: Tables, es: seq<Edge>)
    requires forall i :: 0 <= i < |es| ==> !CanRelax(t.dist, es[i])
    ensures RelaxSeq(t, es) == t
    decreases |es|
  {
    if es != [] {
      StableRoundChangesNothing(t, es[..|es| - 1]);
    }
  }

  /** Once no edge is relaxable, further rounds change nothing. */
  lemma {:induction false} StableRoundsChangeNothing(t: Tables, es: seq<Edge>, k: nat)
    requires !HasRelaxable(t.dist, es)
    ensures Rounds(t, es, k) == t
  {
    if k > 0 {
      StableRoundsChangeNothing(t, es, k - 1);
      StableRoundChangesNothing(t, es);
    }
  }

  /** An edge with an endpoint that is not a key never changes anything, in any number of
      rounds: a graph of such edges leaves the initial tables. */
  lemma InertEdgesChangeNothing(t: Tables, es: seq<Edge>, k: nat)
    requires forall i :: 0 <= i < |es| ==> es[i].source !in t.dist || es[i].destination !in t.dist
    ensures Rounds(t, es, k) == t
  {
    StableRoundsChangeNothing(t, es, k);
  }

  /** The first of k + 1 rounds can be split off. */
  lemma {:induction false} RoundsShift(t: Tables, es: seq<Edge>, k: nat)
    ensures Rounds(t, es, k + 1) == Rounds(RelaxSeq(t, es), es, k)
  {
    if k > 0 {
      RoundsShift(t, es, k - 1);
    }
  }

  /** A vertex with a non-null predecessor has a distance strictly below its initial one. */
  predicate PredecessorsBelow(t: Tables, t0: Tables) {
    t.dist.Keys == t0.dist.Keys
    && forall v :: v in t.pred && t.pred[v].Some? ==> v in t0.dist && Lt(t.dist[v], t0.dist[v])
  }

  lemma {:induction false} RelaxSeqBelow(t: Tables, t0: Tables, es: seq<Edge>)
    requires PredecessorsBelow(t, t0) && NoHigher(t.dist, t0.dist)
    ensures PredecessorsBelow(RelaxSeq(t, es), t0) && NoHigher(RelaxSeq(t, es).dist, t0.dist)
    decreases |es|
  {
    if es != [] {
      var mid := RelaxSeq(t, es[..|es| - 1]);
      RelaxSeqBelow(t, t0, es[..|es| - 1]);
      var r := Relax(mid, es[|es| - 1]);
      forall v | v in t0.dist ensures Le(r.dist[v], t0.dist[v]) {
        LeTransitive(r.dist[v], mid.dist[v], t0.dist[v]);
      }
      forall v | v in r.pred && r.pred[v].Some? ensures Lt(r.dist[v], t0.dist[v]) {
        if v in mid.pred && r.pred[v] == mid.pred[v] {
          assert Le(r.dist[v], mid.dist[v]);
        } else {
          assert Lt(r.dist[v], mid.dist[v]);
        }
      }
    }
  }

  /** `PredecessorsBelow` holds of the tables after the relaxation loop, measured against
      the initial tables. */
  lemma {:induction false} RoundsBelow(t0: Tables, es: seq<Edge>, k: nat)
    requires forall v :: v in t0.pred ==> t0.pred[v] == None
    ensures PredecessorsBelow(Rounds(t0, es, k), t0) && NoHigher(Rounds(t0, es, k).dist, t0.dist)
  {
    if k > 0 {
      RoundsBelow(t0, es, k - 1);
      RelaxSeqBelow(Rounds(t0, es, k - 1), t0, es);
    }
  }

  /** Each non-null predecessor `u` of `v` is the origin of an edge `u -> v` of the list whose
      weight, added to the current distance of `u`, does not exceed the distance of `v`. */
  ghost predicate PredecessorEdges(t: Tables, es: seq<Edge>) {
    forall v :: v in t.pred && t.pred[v].Some? ==>
      v in t.dist && t.pred[v].value in t.dist && t.dist[v].Fin? && t.dist[t.pred[v].value].Fin?
      && exists k :: 0 <= k < |es| && es[k].source == t.pred[v].value && es[k].destination == v
                     && t.dist[t.pred[v].value].n + es[k].weight <= t.dist[v].n
  }

  lemma RelaxPredecessorEdges(t: Tables, es: seq<Edge>, j: nat)
    requires j < |es| && PredecessorEdges(t, es) && t.pred.Keys <= t.dist.Keys
    ensures PredecessorEdges(Relax(t, es[j]), es)
  {
    var e := es[j];
    var r := Relax(t, e);
    if CanRelax(t.dist, e) {
      forall v | v in r.pred && r.pred[v].Some?
        ensures v in r.dist && r.pred[v].value in r.dist && r.dist[v].Fin? && r.dist[r.pred[v].value].Fin?
        ensures exists k :: 0 <= k < |es| && es[k].source == r.pred[v].value && es[k].destination == v
                            && r.dist[r.pred[v].value].n + es[k].weight <= r.dist[v].n
      {
        var u := r.pred[v].value;
        if v == e.destination {
          assert u == e.source;
          if u == v {
            // a relaxed self-loop has negative weight
            assert r.dist[u].n + es[j].weight <= r.dist[v].n;
          } else {
            assert r.dist[u] == t.dist[u];
            assert es[j].source == u && es[j].destination == v;
          }
        } else {
          assert r.pred[v] == t.pred[v] && r.dist[v] == t.dist[v];
          var k :| 0 <= k < |es| && es[k].source == u && es[k].destination == v
                   && t.dist[u].n + es[k].weight <= t.dist[v].n;
          assert Le(r.dist[u], t.dist[u]);
        }
      }
    }
  }

  lemma {:induction false} RelaxSeqPredecessorEdges(t: Tables, es: seq<Edge>, n: nat)
    requires n <= |es| && PredecessorEdges(t, es) && t.pred.Keys <= t.dist.Keys
    ensures PredecessorEdges(RelaxSeq(t, es[..n]), es)
    ensures RelaxSeq(t, es[..n]).pred.Keys <= RelaxSeq(t, es[..n]).dist.Keys
  {
    if n > 0 {
      assert es[..n][..n - 1] == es[..n - 1];
      RelaxSeqPredecessorEdges(t, es, n - 1);
      RelaxSeqNoHigher(t, es[..n - 1]);
      RelaxPredecessorEdges(RelaxSeq(t, es[..n - 1]), es, n - 1);
    }
  }

  lemma {:induction false} RoundsPredecessorEdges(t: Tables, es: seq<Edge>, k: nat)
    requires PredecessorEdges(t, es) && t.pred.Keys <= t.dist.Keys
    ensures PredecessorEdges(Rounds(t, es, k), es)
    ensures Rounds(t, es, k).pred.Keys <= Rounds(t, es, k).dist.Keys
  {
    if k > 0 {
      RoundsPredecessorEdges(t, es, k - 1);
      RelaxSeqPredecessorEdges(Rounds(t, es, k - 1), es, |es|);
      assert es[..|es|] == es;
    }
  }

  /** In the answer, every non-null predecessor link `u -> v` is backed by an edge `u -> v` of
      the request with `distances[u] + weight <= distances[v]`. */
  lemma RunPredecessorEdges(vertices: seq<JsString>, es: seq<Edge>, source: JsString)
    ensures PredecessorEdges(Tables(Run(vertices, es, source).distances,
                                    Run(vertices, es, source).predecessors), es)
  {
    RoundsPredecessorEdges(Initial(vertices, source), es, RoundCount(vertices));
  }

  /** Any vertex with a non-null predecessor in the answer ended strictly below its initial
      distance; the source in particular is then negative. */
  lemma RunPredecessorsBelow(vertices: seq<JsString>, es: seq<Edge>, source: JsString)
    ensures PredecessorsBelow(Tables(Run(vertices, es, source).distances,
                                     Run(vertices, es, source).predecessors),
                              Initial(vertices, source))
  {
    RoundsBelow(Initial(vertices, source), es, RoundCount(vertices));
  }
}
