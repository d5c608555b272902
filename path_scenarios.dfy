/** The "Caminho" column on concrete answers: `getPath` run on the predecessor objects the
    route returns, and on a predecessor cycle that the guard against revisits cuts short. */
module PathScenarios {
  import opened JsValues
  import opened GraphModel
  import opened BellmanFordSpec
  import opened BellmanFordScenarios
  import opened PathReconstruction

  const DefaultPreds: Predecessors := map[A := None, B := Some(C), C := Some(A), D := Some(B)]

  lemma DefaultPathTraced()
    ensures TracedBack(DefaultPreds, A, D, [Name(A), Name(C), Name(B), Name(D)])
  {
    LettersDistinct();
    var n := [Name(A), Name(C), Name(B), Name(D)];
    assert Lookup(DefaultPreds, Name(D)) == Name(B);
    assert Lookup(DefaultPreds, Name(B)) == Name(C);
    assert Lookup(DefaultPreds, Name(C)) == Name(A);
    assert Linked(DefaultPreds, n, 1);
  }

  lemma DefaultPathJoined()
    ensures Join(Texts([Name(A), Name(C), Name(B), Name(D)]), Arrow) == Literal("A → C → B → D")
  {
    var t := Texts([Name(A), Name(C), Name(B), Name(D)]);
    assert t[0] == A && t[1] == C && t[2] == B && t[3] == D;
    assert t == [A, C, B, D];
    assert t[1..] == [C, B, D] && t[1..][1..] == [B, D] && t[1..][1..][1..] == [D];
    assert Join([D], Arrow) == D;
    assert Join([B, D], Arrow) == B + Arrow + D;
    assert Join([C, B, D], Arrow) == C + Arrow + (B + Arrow + D);
    assert Join(t, Arrow) == A + Arrow + (C + Arrow + (B + Arrow + D));
  }

  /** On the default graph the path to D is shown as A → C → B → D. */
  method DefaultGraphPathToD() returns (text: JsString)
    ensures text == Literal("A → C → B → D")
  {
    DefaultGraphRun();
    var answer := Run(DefaultGraph.vertices, DefaultGraph.edges, DefaultGraph.source);
    assert answer.predecessors == DefaultPreds;
    LettersDistinct();
    var o := GetPath(D, answer.predecessors, answer.source);
    DefaultPathTraced();
    TracedBackUnique(DefaultPreds, A, D, o.nodes, [Name(A), Name(C), Name(B), Name(D)]);
    DefaultPathJoined();
    text := Render(D, o);
  }

  /** On the graph A, B, C with the one edge A→B, C is shown as unreachable and the source
      as itself. */
  method UnreachedVertexPaths() returns (forC: JsString, forA: JsString)
    ensures forC == UnreachableText
    ensures forA == A
  {
    UnreachedVertexRun();
    var answer := Run([A, B, C], [Edge(A, B, 1)], A);
    LettersDistinct();
    var o := GetPath(C, answer.predecessors, answer.source);
    forC := Render(C, o);
    o := GetPath(A, answer.predecessors, answer.source);
    forA := Render(A, o);
  }

  const S: JsString := [0x53]
  const P: JsString := [0x50]
  const Q: JsString := [0x51]
  const CyclePreds: Predecessors := map[S := None, P := Some(Q), Q := Some(P)]

  lemma CyclePathTraced()
    ensures TracedBack(CyclePreds, S, P, [Name(S), Name(Q), Name(P)])
  {
    assert S[0] != P[0] && S[0] != Q[0] && P[0] != Q[0];
    var n := [Name(S), Name(Q), Name(P)];
    assert Lookup(CyclePreds, Name(P)) == Name(Q);
    assert Lookup(CyclePreds, Name(Q)) == Name(P);
    assert Linked(CyclePreds, n, 1);
    assert n[1..] == [Name(Q), Name(P)];
  }

  /** Predecessors P↔Q that form a cycle away from the source S: the walk stops when it
      comes back to P, and the text still begins with the source, though no link leads from
      S to Q. */
  method CyclePath() returns (text: JsString)
    ensures text == S + Arrow + Q + Arrow + P
  {
    var o := GetPath(P, CyclePreds, S);
    CyclePathTraced();
    TracedBackUnique(CyclePreds, S, P, o.nodes, [Name(S), Name(Q), Name(P)]);
    var t := Texts([Name(S), Name(Q), Name(P)]);
    assert t[0] == S && t[1] == Q && t[2] == P;
    assert t == [S, Q, P] && t[1..] == [Q, P] && t[1..][1..] == [P];
    assert Join([P], Arrow) == P;
    assert Join([Q, P], Arrow) == Q + Arrow + P;
    text := Render(P, o);
  }
}
