/** Specification of the `/bellman-ford` route (backend/src/routes/algorithmRoutes.js).

    The route keeps two JavaScript objects, `distances` and `predecessors`, and mutates
    them in place. Here they are maps; the JavaScript `Infinity` becomes `Inf`, and the
    comparison `distances[u] + weight < distances[v]` becomes `CanRelax`, which is false
    whenever an endpoint is not a key (`undefined` arithmetic gives `NaN`) or `distances[u]`
    is `Inf` (`Infinity + w` is never below anything).
 */
module BellmanFordSpec {
  import opened JsValues
  import opened GraphModel

  /** A distance: a finite integer or the "unreached" infinity. */
  datatype ExtInt = Fin(n: int) | Inf

  predicate Le(a: ExtInt, b: ExtInt) {
    b.Inf? || (a.Fin? && a.n <= b.n)
  }

  predicate Lt(a: ExtInt, b: ExtInt) {
    a.Fin? && (b.Inf? || a.n < b.n)
  }

  type Distances = map<JsString, ExtInt>
  type Predecessors = map<JsString, Option<JsString>>

  /** The two working objects of the route. */
  datatype Tables = Tables(dist: Distances, pred: Predecessors)

  /** `distances[u] + weight < distances[v]` under JavaScript's rules. */
  predicate CanRelax(d: Distances, e: Edge) {
    e.source in d && e.destination in d && d[e.source].Fin?
    && Lt(Fin(d[e.source].n + e.weight), d[e.destination])
  }

  /** One visit of an edge in the relaxation loop. */
  function Relax(t: Tables, e: Edge): (r: Tables)
    ensures r.dist.Keys == t.dist.Keys
    ensures r.pred.Keys == t.pred.Keys + (if CanRelax(t.dist, e) then {e.destination} else {})
    // distances never increase; a written distance strictly decreases
    ensures forall v :: v in t.dist ==> Le(r.dist[v], t.dist[v])
    ensures forall v :: v in t.dist && r.dist[v] != t.dist[v] ==>
              v == e.destination && Lt(r.dist[v], t.dist[v])
    // a predecessor changes only with a strict decrease of the distance, and to the edge origin
    ensures forall v :: v in r.pred && (v !in t.pred || r.pred[v] != t.pred[v]) ==>
              v == e.destination && r.pred[v] == Some(e.source) && v in t.dist && Lt(r.dist[v], t.dist[v])
    // an edge that cannot be relaxed, in particular one with an endpoint that is not a key,
    // changes nothing
    ensures !CanRelax(t.dist, e) ==> r == t
    // after the visit the edge is no longer improvable from the distance of its origin
    ensures e.source in t.dist && e.destination in t.dist && t.dist[e.source].Fin? ==>
              Le(r.dist[e.destination], Fin(t.dist[e.source].n + e.weight))
  {
    if CanRelax(t.dist, e) then
      Tables(t.dist[e.destination := Fin(t.dist[e.source].n + e.weight)],
             t.pred[e.destination := Some(e.source)])
    else
      t
  }

  /** `edges.forEach(relax)`: the edges visited in declaration order. */
  function RelaxSeq(t: Tables, es: seq<Edge>): Tables
    decreases |es|
  {
    if es == [] then t else Relax(RelaxSeq(t, es[..|es| - 1]), es[|es| - 1])
  }

  /** k full rounds over the edge list. */
  function Rounds(t: Tables, es: seq<Edge>, k: nat): Tables {
    if k == 0 then t else RelaxSeq(Rounds(t, es, k - 1), es)
  }

  /** `for (let i = 0; i < vertices.length - 1; i++)` runs this many rounds. */
  function RoundCount(vertices: seq<JsString>): (n: nat)
    ensures |vertices| <= 1 ==> n == 0
    ensures |vertices| >= 1 ==> n + 1 == |vertices|
  {
    if |vertices| >= 1 then |vertices| - 1 else 0
  }

  /** `vertices.forEach(v => distances[v] = Infinity)`. */
  function AllInfinite(vertices: seq<JsString>): (d: Distances)
    ensures d.Keys == set v | v in vertices
    ensures forall v :: v in d ==> d[v] == Inf
    decreases |vertices|
  {
    if vertices == [] then map[]
    else AllInfinite(vertices[..|vertices| - 1])[vertices[|vertices| - 1] := Inf]
  }

  /** `vertices.forEach(v => predecessors[v] = null)`. */
  function AllNull(vertices: seq<JsString>): (p: Predecessors)
    ensures p.Keys == set v | v in vertices
    ensures forall v :: v in p ==> p[v] == None
    decreases |vertices|
  {
    if vertices == [] then map[]
    else AllNull(vertices[..|vertices| - 1])[vertices[|vertices| - 1] := None]
  }

  /** Every listed vertex at `Infinity` with predecessor `null`; then `distances[source] = 0`,
      written whether or not `source` is listed. */
  function Initial(vertices: seq<JsString>, source: JsString): (r: Tables)
    ensures r.dist.Keys == (set v | v in vertices) + {source}
    ensures r.pred.Keys == set v | v in vertices
    ensures r.dist[source] == Fin(0)
    ensures forall v :: v in vertices && v != source ==> r.dist[v] == Inf
    ensures forall v :: v in r.pred ==> r.pred[v] == None
  {
    Tables(AllInfinite(vertices)[source := Fin(0)], AllNull(vertices))
  }

  /** The read-only negative-cycle pass: true iff some edge is still relaxable. */
  predicate HasRelaxable(d: Distances, es: seq<Edge>) {
    exists k :: 0 <= k < |es| && CanRelax(d, es[k])
  }

  /** The tables after the relaxation loop. */
  function Final(vertices: seq<JsString>, es: seq<Edge>, source: JsString): Tables {
    Rounds(Initial(vertices, source), es, RoundCount(vertices))
  }

  /** The JSON body of a successful answer: `{ success: true, distances, predecessors,
      hasNegativeCycle, source }`. */
  datatype RunResult = RunResult(distances: Distances, predecessors: Predecessors,
                                 hasNegativeCycle: bool, source: JsString)

  function Run(vertices: seq<JsString>, es: seq<Edge>, source: JsString): RunResult {
    var t := Final(vertices, es, source);
    RunResult(t.dist, t.pred, HasRelaxable(t.dist, es), source)
  }

  /** The request body `{ vertices, edges, source }`; `None` is an absent field. */
  datatype Request = Request(vertices: Option<seq<JsString>>, edges: Option<seq<Edge>>,
                             source: Option<JsString>)

  datatype Response = BadRequest(error: string) | Ok(result: RunResult) {
    function Status(): int {
      if BadRequest? then 400 else 200
    }
  }

  const MissingFieldsError := "Vertices, edges e source são obrigatórios"

  /** `!vertices || !edges || !source`: an absent list, or an absent or empty source. */
  predicate MissingFields(req: Request) {
    req.vertices.None? || req.edges.None? || !Truthy(req.source)
  }

  /** The route: reject incomplete input with 400 before any distance work, else run. */
  function Handle(req: Request): (r: Response)
    ensures r.Status() == 400 <==> MissingFields(req)
    ensures r.BadRequest? ==> r.error == MissingFieldsError
    ensures r.Ok? ==> r.result.source == req.source.value
  {
    if MissingFields(req) then BadRequest(MissingFieldsError)
    else Ok(Run(req.vertices.value, req.edges.value, req.source.value))
  }
}
