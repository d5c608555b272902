/** The `/bellman-ford` handler body, step by step as the route runs it
    (backend/src/routes/algorithmRoutes.js lines 9-56): local `distances` and
    `predecessors` updated in place, `|V| - 1` rounds of `edges.forEach`, then a
    `for ... of` pass with `break` that sets `hasNegativeCycle`. The three phases are
    written as separate methods; the handler runs them in the route's order. */
module BellmanFordRoute {
  import opened JsValues
  import opened GraphModel
  import opened BellmanFordSpec

  /** `vertices.forEach(v => { distances[v] = Infinity; predecessors[v] = null })`,
      then `distances[source] = 0`. */
  method Initialise(vertices: seq<JsString>, source: JsString)
    returns (distances: Distances, predecessors: Predecessors)
    ensures Tables(distances, predecessors) == Initial(vertices, source)
  {
    distances, predecessors := map[], map[];
    for i := 0 to |vertices|
      invariant distances == AllInfinite(vertices[..i])
      invariant predecessors == AllNull(vertices[..i])
    {
      assert vertices[..i + 1][..i] == vertices[..i];
      distances := distances[vertices[i] := Inf];
      predecessors := predecessors[vertices[i] := None];
    }
    assert vertices[..|vertices|] == vertices;
    distances := distances[source := Fin(0)];
  }

  /** One `edges.forEach` round of relaxation. */
  method RelaxRound(d0: Distances, p0: Predecessors, edges: seq<Edge>)
    returns (distances: Distances, predecessors: Predecessors)
    ensures Tables(distances, predecessors) == RelaxSeq(Tables(d0, p0), edges)
  {
    distances, predecessors := d0, p0;
    for j := 0 to |edges|
      invariant Tables(distances, predecessors) == RelaxSeq(Tables(d0, p0), edges[..j])
    {
      assert edges[..j + 1][..j] == edges[..j];
      var e := edges[j];
      if CanRelax(distances, e) {
        distances := distances[e.destination := Fin(distances[e.source].n + e.weight)];
        predecessors := predecessors[e.destination := Some(e.source)];
      }
    }
    assert edges[..|edges|] == edges;
  }

  /** The read-only pass: stops at the first edge that is still relaxable. */
  method DetectNegativeCycle(distances: Distances, edges: seq<Edge>) returns (found: bool)
    ensures found <==> exists k :: 0 <= k < |edges| && CanRelax(distances, edges[k])
  {
    found := false;
    for j := 0 to |edges|
      invariant forall k :: 0 <= k < j ==> !CanRelax(distances, edges[k])
    {
      if CanRelax(distances, edges[j]) {
        found := true;
        break;
      }
    }
  }

  method BellmanFord(req: Request) returns (resp: Response)
    ensures resp == Handle(req)
    ensures resp.BadRequest? <==> MissingFields(req)
  {
    if MissingFields(req) {
      return BadRequest(MissingFieldsError);
    }
    var vertices, edges, source := req.vertices.value, req.edges.value, req.source.value;
    var distances, predecessors := Initialise(vertices, source);
    var i := 0;
    while i < |vertices| - 1
      invariant 0 <= i <= RoundCount(vertices)
      invariant Tables(distances, predecessors) == Rounds(Initial(vertices, source), edges, i)
    {
      distances, predecessors := RelaxRound(distances, predecessors, edges);
      i := i + 1;
    }
    var hasNegativeCycle := DetectNegativeCycle(distances, edges);
    resp := Ok(RunResult(distances, predecessors, hasNegativeCycle, source));
  }
}
