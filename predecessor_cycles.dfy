/** The predecessor links of backend/src/routes/algorithmRoutes.js form no cycle unless a
    negative cycle is reachable.

    A link `predecessors[v] = u` is written only by a strict relaxation of an edge u -> v.
    When that write closes a cycle of links, the other links of the cycle satisfy
    `distances[u'] + weight <= distances[v']`, and the closing one improves strictly, so the
    edges of the cycle weigh less than 0. Every cycle of links is therefore backed by a
    negative closed walk, and without the flag there is none. */
module PredecessorCycles {
  import opened JsValues
  import opened GraphModel
  import opened BellmanFordSpec
  import opened BellmanFordProps
  import opened Walks
  import opened BellmanFordCorrectness

  /** `xs` is a cycle of predecessor links without repetition: the predecessor of each entry
      is the entry before it, and that of the first entry is the last. */
  predicate PredCycle(p: Predecessors, xs: seq<JsString>) {
    |xs| >= 1 && (forall i :: 0 <= i < |xs| ==> xs[i] in p)
    && (forall i :: 1 <= i < |xs| ==> p[xs[i]] == Some(xs[i - 1]))
    && p[xs[0]] == Some(xs[|xs| - 1])
    && (forall i, j :: 0 <= i < j < |xs| ==> xs[i] != xs[j])
  }

  /** Each entry after the first has the entry before it as predecessor. */
  predicate PredChain(p: Predecessors, ys: seq<JsString>) {
    forall i :: 1 <= i < |ys| ==> ys[i] in p && p[ys[i]] == Some(ys[i - 1])
  }

  /** Every cycle of predecessor links passes through the start of a negative closed walk. */
  ghost predicate CyclesNegative(t: Tables, es: seq<Edge>) {
    forall xs :: PredCycle(t.pred, xs) ==> NegativeThrough(es, t.dist.Keys, xs)
  }

  /** Some entry of `xs` starts a closed walk over `es` of negative weight. */
  ghost predicate NegativeThrough(es: seq<Edge>, K: set<JsString>, xs: seq<JsString>) {
    exists j, c :: 0 <= j < |xs| && IsWalk(es, K, xs[j], xs[j], c) && Weight(c) < 0
  }

  /** Every vertex other than `s` that has a finite distance has a non-null predecessor. */
  predicate FiniteHavePredecessors(t: Tables, s: JsString) {
    forall x :: x in t.dist && x != s && t.dist[x].Fin? ==> x in t.pred && t.pred[x].Some?
  }

  /** Following a chain of links forwards walks over request edges whose weight is at most
      the rise of the distance from its first entry to its last. */
  lemma {:induction false} ChainWalk(t: Tables, es: seq<Edge>, ys: seq<JsString>) returns (c: seq<Edge>)
    requires PredecessorEdges(t, es) && |ys| >= 1 && ys[0] in t.dist && t.dist[ys[0]].Fin?
    requires PredChain(t.pred, ys)
    ensures ys[|ys| - 1] in t.dist && t.dist[ys[|ys| - 1]].Fin?
    ensures IsWalk(es, t.dist.Keys, ys[0], ys[|ys| - 1], c)
    ensures Weight(c) <= t.dist[ys[|ys| - 1]].n - t.dist[ys[0]].n
    decreases |ys|
  {
    if |ys| == 1 {
      c := [];
    } else {
      var init := ys[..|ys| - 1];
      assert PredChain(t.pred, init) by {
        forall i | 1 <= i < |init| ensures init[i] in t.pred && t.pred[init[i]] == Some(init[i - 1]) {
          assert init[i] == ys[i] && init[i - 1] == ys[i - 1];
        }
      }
      var c0 := ChainWalk(t, es, init);
      var y, x := ys[|ys| - 2], ys[|ys| - 1];
      assert init[|init| - 1] == y;
      assert x in t.pred && t.pred[x] == Some(y);
      var k :| 0 <= k < |es| && es[k].source == y && es[k].destination == x
               && t.dist[y].n + es[k].weight <= t.dist[x].n;
      assert IsWalk(es, t.dist.Keys, y, x, [es[k]]);
      WalkAppend(es, t.dist.Keys, ys[0], y, x, c0, [es[k]]);
      assert Weight([es[k]]) == es[k].weight;
      c := c0 + [es[k]];
    }
  }

  /** When the relaxation of `es[j]` closes a cycle of links through its destination, the
      cycle's edges form a negative closed walk at that destination. */
  lemma ClosedWalkThrough(t: Tables, es: seq<Edge>, j: nat, xs: seq<JsString>, m: nat) returns (c: seq<Edge>)
    requires j < |es| && PredecessorEdges(t, es) && t.pred.Keys <= t.dist.Keys && CanRelax(t.dist, es[j])
    requires PredCycle(Relax(t, es[j]).pred, xs) && m < |xs| && xs[m] == es[j].destination
    ensures IsWalk(es, t.dist.Keys, xs[m], xs[m], c) && Weight(c) < 0
  {
    var e := es[j];
    var u, v := e.source, e.destination;
    var r := Relax(t, e);
    assert forall x :: x in r.pred && x != v ==> x in t.pred && t.pred[x] == r.pred[x];
    var ys := RotatedChain(t.pred, r.pred, v, xs, m);
    assert ys[|ys| - 1] == u;
    assert t.dist[v].Fin? by {
      if |ys| > 1 {
        assert t.pred[ys[1]] == Some(v);
      }
    }
    var c0 := ChainWalk(t, es, ys);
    assert IsWalk(es, t.dist.Keys, u, v, [e]);
    WalkAppend(es, t.dist.Keys, v, u, v, c0, [e]);
    assert Weight([e]) == e.weight;
    c := c0 + [e];
  }

  /** A cycle of links in `after` read from its entry `v`, where `v` is the only entry
      whose link differs from `before`, is a chain of links of `before` from `v` to the
      predecessor of `v` in `after`. */
  lemma RotatedChain(before: Predecessors, after: Predecessors, v: JsString, xs: seq<JsString>, m: nat)
    returns (ys: seq<JsString>)
    requires PredCycle(after, xs) && m < |xs| && xs[m] == v
    requires forall x :: x in after && x != v ==> x in before && before[x] == after[x]
    ensures |ys| == |xs| && ys[0] == v && Some(ys[|ys| - 1]) == after[v]
    ensures PredChain(before, ys)
  {
    var n := |xs|;
    ys := xs[m..] + xs[..m];
    assert ys[n - 1] == (if m == 0 then xs[n - 1] else xs[m - 1]);
    forall i | 1 <= i < n ensures ys[i] in before && before[ys[i]] == Some(ys[i - 1]) {
      if m + i < n {
        assert ys[i] == xs[m + i] && ys[i - 1] == xs[m + i - 1];
      } else if m + i == n {
        assert ys[i] == xs[0] && ys[i - 1] == xs[n - 1];
      } else {
        assert ys[i] == xs[m + i - n] && ys[i - 1] == xs[m + i - n - 1];
      }
    }
  }

  lemma RelaxCyclesNegative(t: Tables, es: seq<Edge>, j: nat)
    requires j < |es| && PredecessorEdges(t, es) && t.pred.Keys <= t.dist.Keys && CyclesNegative(t, es)
    ensures CyclesNegative(Relax(t, es[j]), es)
  {
    var e := es[j];
    var r := Relax(t, e);
    if CanRelax(t.dist, e) {
      var v := e.destination;
      forall xs | PredCycle(r.pred, xs)
        ensures NegativeThrough(es, r.dist.Keys, xs)
      {
        if m :| 0 <= m < |xs| && xs[m] == v {
          var c := ClosedWalkThrough(t, es, j, xs, m);
        } else {
          assert PredCycle(t.pred, xs);
        }
      }
    }
  }

  lemma {:induction false} RelaxSeqCyclesNegative(t: Tables, es: seq<Edge>, n: nat)
    requires n <= |es| && PredecessorEdges(t, es) && t.pred.Keys <= t.dist.Keys && CyclesNegative(t, es)
    ensures CyclesNegative(RelaxSeq(t, es[..n]), es)
  {
    if n > 0 {
      assert es[..n][..n - 1] == es[..n - 1];
      RelaxSeqCyclesNegative(t, es, n - 1);
      RelaxSeqPredecessorEdges(t, es, n - 1);
      RelaxCyclesNegative(RelaxSeq(t, es[..n - 1]), es, n - 1);
    }
  }

  /** The facts a round of relaxations keeps, taken together. */
  ghost predicate LinksBacked(t: Tables, es: seq<Edge>) {
    PredecessorEdges(t, es) && t.pred.Keys <= t.dist.Keys && CyclesNegative(t, es)
  }

  lemma RoundLinksBacked(t: Tables, es: seq<Edge>)
    requires LinksBacked(t, es)
    ensures LinksBacked(RelaxSeq(t, es), es)
  {
    RelaxSeqCyclesNegative(t, es, |es|);
    RelaxSeqPredecessorEdges(t, es, |es|);
    assert es[..|es|] == es;
  }

  lemma {:induction false} RoundsLinksBacked(t: Tables, es: seq<Edge>, k: nat)
    requires LinksBacked(t, es)
    ensures LinksBacked(Rounds(t, es, k), es)
  {
    if k > 0 {
      RoundsLinksBacked(t, es, k - 1);
      RoundLinksBacked(Rounds(t, es, k - 1), es);
    }
  }

  lemma {:induction false} RelaxSeqFinite(t: Tables, es: seq<Edge>, s: JsString)
    requires FiniteHavePredecessors(t, s)
    ensures FiniteHavePredecessors(RelaxSeq(t, es), s)
    decreases |es|
  {
    if es != [] {
      RelaxSeqFinite(t, es[..|es| - 1], s);
    }
  }

  lemma {:induction false} RoundsFinite(t: Tables, es: seq<Edge>, k: nat, s: JsString)
    requires FiniteHavePredecessors(t, s)
    ensures FiniteHavePredecessors(Rounds(t, es, k), s)
  {
    if k > 0 {
      RoundsFinite(t, es, k - 1, s);
      RelaxSeqFinite(Rounds(t, es, k - 1), es, s);
    }
  }

  /** In the answer, every vertex but the source that has a finite distance has a non-null
      predecessor: only a relaxation makes a distance finite, and it writes the link. */
  lemma RunFiniteHavePredecessors(vertices: seq<JsString>, es: seq<Edge>, source: JsString)
    ensures FiniteHavePredecessors(Final(vertices, es, source), source)
  {
    RoundsFinite(Initial(vertices, source), es, RoundCount(vertices), source);
  }

  /** In the answer, every cycle of predecessor links is backed by a negative closed walk. */
  lemma RunCyclesNegative(vertices: seq<JsString>, es: seq<Edge>, source: JsString)
    ensures CyclesNegative(Final(vertices, es, source), es)
  {
    var t0 := Initial(vertices, source);
    assert forall xs :: !PredCycle(t0.pred, xs);
    assert LinksBacked(t0, es);
    RoundsLinksBacked(t0, es, RoundCount(vertices));
  }

  /** Without the negative-cycle flag the predecessor links of the answer form no cycle,
      so following them from any vertex never comes back to it. */
  lemma NoFlagNoPredecessorCycle(vertices: seq<JsString>, es: seq<Edge>, source: JsString, xs: seq<JsString>)
    requires !Run(vertices, es, source).hasNegativeCycle
    ensures !PredCycle(Run(vertices, es, source).predecessors, xs)
  {
    var t := Final(vertices, es, source);
    if PredCycle(t.pred, xs) {
      RunCyclesNegative(vertices, es, source);
      var j, c :| 0 <= j < |xs| && IsWalk(es, t.dist.Keys, xs[j], xs[j], c) && Weight(c) < 0;
      assert t.pred[xs[j]].Some? by {
        if j > 0 {
          assert t.pred[xs[j]] == Some(xs[j - 1]);
        }
      }
      RunKeys(vertices, es, source);
      RunPredecessorsConsistent(vertices, es, source);
      RunSound(vertices, es, source);
      var p :| IsWalk(es, Keys(vertices, source), source, xs[j], p) && Weight(p) == t.dist[xs[j]].n;
      NegativeCycleFlagged(vertices, es, source, xs[j], p, c);
    }
  }
}
