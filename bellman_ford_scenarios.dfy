/** Concrete runs of the `/bellman-ford` route, and the one input on which the route's
    negative-cycle flag goes wrong: a `source` that is not among `vertices`. */
module BellmanFordScenarios {
  import opened JsValues
  import opened GraphModel
  import opened BellmanFordSpec
  import opened BellmanFordProps
  import opened Walks
  import opened BellmanFordCorrectness

  // The default graph, edge by edge through the first round.
  const DefaultStart := Tables(map[A := Fin(0), B := Inf, C := Inf, D := Inf],
                               map[A := None, B := None, C := None, D := None])
  const DefaultAfterAB := Tables(map[A := Fin(0), B := Fin(4), C := Inf, D := Inf],
                                 map[A := None, B := Some(A), C := None, D := None])
  const DefaultAfterAC := Tables(map[A := Fin(0), B := Fin(4), C := Fin(2), D := Inf],
                                 map[A := None, B := Some(A), C := Some(A), D := None])
  const DefaultAfterCB := Tables(map[A := Fin(0), B := Fin(3), C := Fin(2), D := Inf],
                                 map[A := None, B := Some(C), C := Some(A), D := None])
  const DefaultFinal := Tables(map[A := Fin(0), B := Fin(3), C := Fin(2), D := Fin(5)],
                               map[A := None, B := Some(C), C := Some(A), D := Some(B)])

  lemma DefaultInitial()
    ensures Initial(DefaultGraph.vertices, DefaultGraph.source) == DefaultStart
  {
    DefaultVertexSet();
    var t := Initial(DefaultGraph.vertices, A);
    DefaultStartDist(t.dist);
    DefaultStartPred(t.pred);
  }

  lemma DefaultVertexSet()
    ensures (set v | v in DefaultGraph.vertices) == {A, B, C, D}
  {
  }

  lemma DefaultStartDist(d: Distances)
    requires d.Keys == {A, B, C, D} + {A}
    requires d[A] == Fin(0) && forall v :: v in [A, B, C, D] && v != A ==> d[v] == Inf
    ensures d == DefaultStart.dist
  {
    LettersDistinct();
    assert d[B] == Inf && d[C] == Inf && d[D] == Inf;
  }

  lemma DefaultStartPred(p: Predecessors)
    requires p.Keys == {A, B, C, D}
    requires forall v :: v in p ==> p[v] == None
    ensures p == DefaultStart.pred
  {
  }

  lemma DefaultRelaxAB()
    ensures Relax(DefaultStart, DefaultGraph.edges[0]) == DefaultAfterAB
  {
    LettersDistinct();
  }

  lemma DefaultRelaxAC()
    ensures Relax(DefaultAfterAB, DefaultGraph.edges[1]) == DefaultAfterAC
  {
    LettersDistinct();
  }

  lemma DefaultRelaxCB()
    ensures Relax(DefaultAfterAC, DefaultGraph.edges[2]) == DefaultAfterCB
  {
    LettersDistinct();
  }

  lemma DefaultRelaxBD()
    ensures Relax(DefaultAfterCB, DefaultGraph.edges[3]) == DefaultFinal
  {
    LettersDistinct();
  }

  lemma DefaultFirstRound()
    ensures RelaxSeq(DefaultStart, DefaultGraph.edges) == DefaultFinal
  {
    var es := DefaultGraph.edges;
    assert es[..1] == [es[0]] && es[..2][..1] == es[..1] && es[..3][..2] == es[..2];
    assert es[..4][..3] == es[..3] && es[..4] == es;
    DefaultRelaxAB();
    DefaultRelaxAC();
    DefaultRelaxCB();
    DefaultRelaxBD();
    assert RelaxSeq(DefaultStart, es[..1]) == DefaultAfterAB;
    assert RelaxSeq(DefaultStart, es[..2]) == DefaultAfterAC;
    assert RelaxSeq(DefaultStart, es[..3]) == DefaultAfterCB;
    assert RelaxSeq(DefaultStart, es[..4]) == DefaultFinal;
  }

  lemma DefaultStable()
    ensures !HasRelaxable(DefaultFinal.dist, DefaultGraph.edges)
  {
    LettersDistinct();
  }

  /** The editor's default graph from A: A:0, B:3, C:2, D:5 with predecessors B:C, C:A, D:B,
      and no negative cycle. The first round already reaches these values. */
  lemma DefaultGraphRun()
    ensures Run(DefaultGraph.vertices, DefaultGraph.edges, DefaultGraph.source)
         == RunResult(map[A := Fin(0), B := Fin(3), C := Fin(2), D := Fin(5)],
                      map[A := None, B := Some(C), C := Some(A), D := Some(B)],
                      false, A)
  {
    DefaultInitial();
    DefaultFirstRound();
    DefaultStable();
    RoundsShift(DefaultStart, DefaultGraph.edges, 2);
    StableRoundsChangeNothing(DefaultFinal, DefaultGraph.edges, 2);
  }

  const X: JsString := [0x58]
  const Y: JsString := [0x59]
  const TwoCycleEdges := [Edge(X, Y, 1), Edge(Y, X, -2)]

  const TwoCycleStart := Tables(map[X := Fin(0), Y := Inf], map[X := None, Y := None])
  const TwoCycleAfterXY := Tables(map[X := Fin(0), Y := Fin(1)], map[X := None, Y := Some(X)])
  const TwoCycleFinal := Tables(map[X := Fin(-1), Y := Fin(1)], map[X := Some(Y), Y := Some(X)])

  lemma XYDistinct()
    ensures X != Y
  {
    assert X[0] != Y[0];
  }

  lemma TwoCycleInitial()
    ensures Initial([X, Y], X) == TwoCycleStart
  {
    XYDistinct();
    assert (set v | v in [X, Y]) == {X, Y};
    var t := Initial([X, Y], X);
    assert t.dist.Keys == {X, Y} && t.pred.Keys == {X, Y};
  }

  lemma TwoCycleRound()
    ensures RelaxSeq(TwoCycleStart, TwoCycleEdges) == TwoCycleFinal
  {
    XYDistinct();
    var es := TwoCycleEdges;
    assert es[..1] == [es[0]];
    TwoCycleRelaxXY();
    TwoCycleRelaxYX();
    assert RelaxSeq(TwoCycleStart, es[..1]) == TwoCycleAfterXY;
  }

  lemma TwoCycleRelaxXY()
    ensures Relax(TwoCycleStart, TwoCycleEdges[0]) == TwoCycleAfterXY
  {
    XYDistinct();
  }

  lemma TwoCycleRelaxYX()
    ensures Relax(TwoCycleAfterXY, TwoCycleEdges[1]) == TwoCycleFinal
  {
    XYDistinct();
  }

  /** X -> Y (1), Y -> X (-2) from X: the single round drives X to -1, so the source itself
      gets a predecessor, and the flag is raised. */
  lemma TwoCycleRun()
    ensures Run([X, Y], TwoCycleEdges, X)
         == RunResult(map[X := Fin(-1), Y := Fin(1)], map[X := Some(Y), Y := Some(X)], true, X)
  {
    TwoCycleInitial();
    TwoCycleRound();
    XYDistinct();
    assert RoundCount([X, Y]) == 1;
    assert Final([X, Y], TwoCycleEdges, X) == Rounds(TwoCycleStart, TwoCycleEdges, 1) == TwoCycleFinal;
    assert CanRelax(TwoCycleFinal.dist, TwoCycleEdges[0]);
  }

  /** The same flag through the general theorem: the closed walk X -> Y -> X weighs -1. */
  lemma TwoCycleFlagged()
    ensures Run([X, Y], TwoCycleEdges, X).hasNegativeCycle
  {
    var es := TwoCycleEdges;
    var K := Keys([X, Y], X);
    var c := [es[0], es[1]];
    assert IsWalk(es, K, X, X, []);
    assert IsWalk(es, K, X, X, c);
    assert c[..1] == [es[0]] && [es[0]][..0] == [];
    assert Weight([es[0]]) == 1;
    assert Weight(c) == -1;
    NegativeCycleFlagged([X, Y], es, X, X, [], c);
  }

  const ChainStart := Tables(map[A := Fin(0), B := Inf, C := Inf], map[A := None, B := None, C := None])
  const ChainFinal := Tables(map[A := Fin(0), B := Fin(1), C := Inf], map[A := None, B := Some(A), C := None])

  lemma ChainInitial()
    ensures Initial([A, B, C], A) == ChainStart
  {
    ChainVertexSet();
    var t := Initial([A, B, C], A);
    ChainStartDist(t.dist);
    ChainStartPred(t.pred);
  }

  lemma ChainVertexSet()
    ensures (set v | v in [A, B, C]) == {A, B, C}
  {
  }

  lemma ChainStartDist(d: Distances)
    requires d.Keys == {A, B, C} + {A}
    requires d[A] == Fin(0) && forall v :: v in [A, B, C] && v != A ==> d[v] == Inf
    ensures d == ChainStart.dist
  {
    LettersDistinct();
    assert d[B] == Inf && d[C] == Inf;
  }

  lemma ChainStartPred(p: Predecessors)
    requires p.Keys == {A, B, C}
    requires forall v :: v in p ==> p[v] == None
    ensures p == ChainStart.pred
  {
  }

  lemma ChainRound()
    ensures RelaxSeq(ChainStart, [Edge(A, B, 1)]) == ChainFinal
    ensures !HasRelaxable(ChainFinal.dist, [Edge(A, B, 1)])
  {
    ChainRelaxAB();
    ChainStable();
    assert RelaxSeq(ChainStart, [Edge(A, B, 1)]) == Relax(ChainStart, Edge(A, B, 1));
  }

  lemma ChainRelaxAB()
    ensures Relax(ChainStart, Edge(A, B, 1)) == ChainFinal
  {
    LettersDistinct();
  }

  lemma ChainStable()
    ensures !HasRelaxable(ChainFinal.dist, [Edge(A, B, 1)])
  {
    LettersDistinct();
  }

  /** [A, B, C] with the single edge A -> B (1): C stays unreached with a null predecessor. */
  lemma UnreachedVertexRun()
    ensures Run([A, B, C], [Edge(A, B, 1)], A)
         == RunResult(map[A := Fin(0), B := Fin(1), C := Inf],
                      map[A := None, B := Some(A), C := None], false, A)
  {
    ChainInitial();
    ChainRound();
    RoundsShift(ChainStart, [Edge(A, B, 1)], 1);
    StableRoundsChangeNothing(ChainFinal, [Edge(A, B, 1)], 1);
  }

  /** [A, B] without edges: the initial tables are the answer. */
  lemma NoEdgesRun()
    ensures Run([A, B], [], A)
         == RunResult(map[A := Fin(0), B := Inf], map[A := None, B := None], false, A)
  {
    LettersDistinct();
    assert (set v | v in [A, B]) == {A, B};
    var t := Initial([A, B], A);
    assert t.dist.Keys == {A, B} && t.pred.Keys == {A, B};
    assert t == Tables(map[A := Fin(0), B := Inf], map[A := None, B := None]);
    assert Rounds(t, [], 1) == RelaxSeq(t, []) == t;
  }

  // ---------------------------------------------------------------------------
  // The unlisted source

  const FalseAlarmVertices: seq<JsString> := [B, C]
  const FalseAlarmEdges: seq<Edge> := [Edge(B, C, 1), Edge(A, B, 1)]

  /** A rank that every edge of the false-alarm graph raises by exactly one. */
  function FalseAlarmRank(v: JsString): nat {
    if v == A then 0 else if v == B then 1 else 2
  }

  lemma {:induction false} RankAlongWalk(K: set<JsString>, x: JsString, y: JsString, p: seq<Edge>)
    requires IsWalk(FalseAlarmEdges, K, x, y, p)
    ensures FalseAlarmRank(y) == FalseAlarmRank(x) + |p|
    decreases |p|
  {
    if p != [] {
      var q, e := LastEdge(FalseAlarmEdges, K, x, y, p);
      RankAlongWalk(K, x, e.source, q);
    }
  }

  /** The false-alarm graph is acyclic: its only closed walk is the empty one. */
  lemma FalseAlarmAcyclic()
    ensures NoNegativeCycleFrom(FalseAlarmEdges, Keys(FalseAlarmVertices, A), A)
  {
    var K := Keys(FalseAlarmVertices, A);
    forall x, p, c | IsWalk(FalseAlarmEdges, K, A, x, p) && IsWalk(FalseAlarmEdges, K, x, x, c)
      ensures Weight(c) >= 0
    {
      RankAlongWalk(K, x, x, c);
    }
  }

  const FalseAlarmStart := Tables(map[A := Fin(0), B := Inf, C := Inf], map[B := None, C := None])
  const FalseAlarmFinal := Tables(map[A := Fin(0), B := Fin(1), C := Inf], map[B := Some(A), C := None])

  lemma FalseAlarmInitial()
    ensures Initial(FalseAlarmVertices, A) == FalseAlarmStart
  {
    LettersDistinct();
    assert (set v | v in FalseAlarmVertices) == {B, C};
    var t := Initial(FalseAlarmVertices, A);
    assert t.dist.Keys == {A, B, C} && t.pred.Keys == {B, C};
  }

  lemma FalseAlarmRound()
    ensures RelaxSeq(FalseAlarmStart, FalseAlarmEdges) == FalseAlarmFinal
    ensures CanRelax(FalseAlarmFinal.dist, FalseAlarmEdges[0])
  {
    LettersDistinct();
    var es := FalseAlarmEdges;
    assert es[..1] == [es[0]];
    assert !CanRelax(FalseAlarmStart.dist, es[0]);
    assert RelaxSeq(FalseAlarmStart, es[..1]) == FalseAlarmStart;
    assert Relax(FalseAlarmStart, es[1]) == FalseAlarmFinal;
  }

  /** As written: with `source` A outside the vertex list [B, C], the route runs one round
      over three keys; A -> B is relaxed only after B -> C was visited, so B -> C is still
      relaxable and the graph, which has no cycle at all, is reported as having a negative
      cycle. */
  lemma UnlistedSourceFalseAlarm()
    ensures NoNegativeCycleFrom(FalseAlarmEdges, Keys(FalseAlarmVertices, A), A)
    ensures Handle(Request(Some(FalseAlarmVertices), Some(FalseAlarmEdges), Some(A))).Ok?
    ensures Handle(Request(Some(FalseAlarmVertices), Some(FalseAlarmEdges), Some(A))).result.hasNegativeCycle
  {
    FalseAlarmAcyclic();
    FalseAlarmInitial();
    FalseAlarmRound();
    assert RoundCount(FalseAlarmVertices) == 1;
    assert Final(FalseAlarmVertices, FalseAlarmEdges, A)
        == Rounds(FalseAlarmStart, FalseAlarmEdges, 1) == FalseAlarmFinal;
  }

  const SourceNotInVerticesError := "source_not_in_vertices"

  /** Corrected: the route also rejects a `source` that is not among `vertices`. */
  function HandleValidated(req: Request): (r: Response)
    ensures r.BadRequest? <==> MissingFields(req) || req.source.value !in req.vertices.value
    ensures r.Ok? ==> r == Handle(req)
    ensures r.BadRequest? && MissingFields(req) ==> r == Handle(req)
  {
    if MissingFields(req) then Handle(req)
    else if req.source.value !in req.vertices.value then BadRequest(SourceNotInVerticesError)
    else Handle(req)
  }

  /** For the corrected route the flag means exactly what it says: it is raised iff some
      closed walk of negative weight is reachable from the source. */
  lemma HandleValidatedFlagCorrect(req: Request)
    requires HandleValidated(req).Ok?
    ensures HandleValidated(req).result.hasNegativeCycle
        <==> !NoNegativeCycleFrom(req.edges.value, Keys(req.vertices.value, req.source.value),
                                  req.source.value)
  {
    var vs, es, s := req.vertices.value, req.edges.value, req.source.value;
    var K := Keys(vs, s);
    if NoNegativeCycleFrom(es, K, s) {
      ListedSourceNoNegativeCycleNoFlag(vs, es, s);
    } else {
      var x, p, c :| IsWalk(es, K, s, x, p) && IsWalk(es, K, x, x, c) && Weight(c) < 0;
      NegativeCycleFlagged(vs, es, s, x, p, c);
    }
  }

  /** The corrected route refuses the false-alarm request. */
  lemma HandleValidatedRejectsFalseAlarm()
    ensures HandleValidated(Request(Some(FalseAlarmVertices), Some(FalseAlarmEdges), Some(A)))
         == BadRequest(SourceNotInVerticesError)
  {
  }
}
