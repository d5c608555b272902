/** The graph record the editor builds and the route receives:
    `{ vertices, edges: [{ source, destination, weight }], source }`. */
module GraphModel {
  import opened JsValues

  /** A directed weighted edge. Weights are integers: the editor stores `parseInt(...) || 0`. */
  datatype Edge = Edge(source: JsString, destination: JsString, weight: int)

  datatype Graph = Graph(vertices: seq<JsString>, edges: seq<Edge>, source: JsString)

  predicate Touches(e: Edge, v: JsString) {
    e.source == v || e.destination == v
  }

  const A: JsString := [0x41]
  const B: JsString := [0x42]
  const C: JsString := [0x43]
  const D: JsString := [0x44]

  lemma LettersDistinct()
    ensures A != B && A != C && A != D && B != C && B != D && C != D
  {
    assert A[0] != B[0] && A[0] != C[0] && A[0] != D[0] && B[0] != C[0] && B[0] != D[0] && C[0] != D[0];
  }

  /** The graph the editor starts with and returns to on reset. */
  const DefaultGraph: Graph := Graph(
    [A, B, C, D],
    [Edge(A, B, 4), Edge(A, C, 2), Edge(C, B, 1), Edge(B, D, 2)],
    A)
}
