/** frontend/src/components/GraphVisualization.jsx: the ReactFlow node and edge records built
    from the graph and the answer of the route, the extraction of predecessor edges and their
    highlighting.

    The answer reaches the browser as JSON. `JSON.stringify` writes `Infinity` as `null`, so a
    distance the component sees is a number, `null`, or (for objects that never went through
    JSON) `Infinity`. */
module Visualization {
  import opened JsValues
  import opened GraphModel
  import opened BellmanFordSpec
  import opened BellmanFordCorrectness
  import opened BellmanFordScenarios

  // ---------------------------------------------------------------------------
  // Distances as the component receives them

  datatype JsonValue = JNumber(n: int) | JNull | JInfinity

  /** `JSON.stringify` of a distance on the way from `res.json` to `response.data`. */
  function Serialize(e: ExtInt): (r: JsonValue)
    ensures r.JNumber? <==> e.Fin?
    ensures r.JNumber? ==> r.n == e.n
    ensures r != JInfinity
  {
    match e
    case Fin(n) => JNumber(n)
    case Inf => JNull
  }

  const InfinityText: JsString := Literal("∞")
  const Minus: JsString := Literal("-")

  /** A number as React prints it. */
  function NumberText(n: int): (r: JsString)
    ensures |r| >= 1 && (IsDigitUnit(r[0]) || r[0] == Minus[0])
  {
    if n < 0 then Minus + Decimal(-n) else Decimal(n)
  }

  lemma NumberTextNotInfinity(n: int)
    ensures NumberText(n) != InfinityText
  {
    assert InfinityText[0] == 0x221E;
  }

  /** `distance === Infinity ? '∞' : distance`, as the node badge (line 42) and the results
      table of BellmanFord.jsx (line 398) render it; React prints `null` as nothing. */
  function DistanceTextAsWritten(v: JsonValue): (r: JsString)
    ensures r == InfinityText <==> v.JInfinity?
    ensures v.JNull? ==> r == []
    ensures v.JNumber? ==> r == NumberText(v.n)
  {
    match v
    case JInfinity => InfinityText
    case JNumber(n) => NumberTextNotInfinity(n); NumberText(n)
    case JNull => []
  }

  /** The rendering the comparison with `Infinity` is meant to give: the unreached mark for
      every distance that stands for infinity, `null` included. */
  function DistanceText(v: JsonValue): (r: JsString)
    ensures v.JNumber? ==> r == NumberText(v.n)
    ensures !v.JNumber? ==> r == InfinityText
  {
    if v.JNumber? then NumberText(v.n) else InfinityText
  }

  /** After serialisation, the corrected rendering shows the unreached mark exactly for the
      infinite distances and the number for the finite ones. */
  lemma DistanceTextAfterJson(e: ExtInt)
    ensures DistanceText(Serialize(e)) == InfinityText <==> e.Inf?
    ensures e.Fin? ==> DistanceText(Serialize(e)) == NumberText(e.n)
  {
    if e.Fin? {
      NumberTextNotInfinity(e.n);
    }
  }

  /** As written, the comparison never matches a distance that went through JSON: an
      unreached vertex of an answer shows an empty cell. On the graph A, B, C with the one
      edge A→B, vertex C is unreached and its distance is shown as nothing instead of ∞. */
  lemma UnreachedShowsBlank()
    ensures C in Run([A, B, C], [Edge(A, B, 1)], A).distances
    ensures Run([A, B, C], [Edge(A, B, 1)], A).distances[C] == Inf
    ensures DistanceTextAsWritten(Serialize(Run([A, B, C], [Edge(A, B, 1)], A).distances[C])) == []
    ensures DistanceText(Serialize(Run([A, B, C], [Edge(A, B, 1)], A).distances[C])) == InfinityText
  {
    UnreachedVertexRun();
  }

  /** The two renderings agree on everything but `null`. */
  lemma DistanceTextDiffersOnlyOnNull(v: JsonValue)
    ensures DistanceTextAsWritten(v) != DistanceText(v) <==> v.JNull?
  {
    assert InfinityText != [];
  }

  // ---------------------------------------------------------------------------
  // Nodes (lines 24-64)

  const SourceBackground: JsString := Literal("#e74c3c")
  const VertexBackground: JsString := Literal("#3498db")

  /** A node record: the id, the position, whether it is drawn as the source, and the badge
      under the label (absent when `distances[vertex]` is `undefined`). */
  datatype Node = Node(id: JsString, x: int, y: int, isSource: bool, badge: Option<JsString>,
                       background: JsString)

  /** The grid: three columns 200 apart, rows 150 apart. */
  function X(index: nat): int {
    100 + (index % 3) * 200
  }

  function Y(index: nat): int {
    100 + (index / 3) * 150
  }

  /** The node of `vertex` at `index`, as line 42 renders it: the badge is
      `DistanceTextAsWritten`, so a `null` distance shows as nothing. */
  function NodeAt(vertex: JsString, index: nat, distances: map<JsString, JsonValue>, source: JsString): Node {
    var isSource := vertex == source;
    Node(vertex, X(index), Y(index), isSource,
         if vertex in distances then Some(DistanceTextAsWritten(distances[vertex])) else None,
         if isSource then SourceBackground else VertexBackground)
  }

  /** `vertices.map(...)`. */
  function Nodes(vertices: seq<JsString>, distances: map<JsString, JsonValue>, source: JsString): (r: seq<Node>)
    ensures |r| == |vertices|
    ensures forall i :: 0 <= i < |vertices| ==> r[i] == NodeAt(vertices[i], i, distances, source)
  {
    seq(|vertices|, i requires 0 <= i < |vertices| => NodeAt(vertices[i], i, distances, source))
  }

  /** Each node is drawn as the source, with the source colour, exactly when its vertex is the
      source, and carries a badge exactly when its vertex has a distance; the badge shows ∞
      exactly when that distance is `Infinity`, and nothing when it is `null`. */
  lemma NodeStyle(vertices: seq<JsString>, distances: map<JsString, JsonValue>, source: JsString, i: nat)
    requires i < |vertices|
    ensures Nodes(vertices, distances, source)[i].id == vertices[i]
    ensures Nodes(vertices, distances, source)[i].isSource <==> vertices[i] == source
    ensures Nodes(vertices, distances, source)[i].background == SourceBackground <==> vertices[i] == source
    ensures Nodes(vertices, distances, source)[i].badge.Some? <==> vertices[i] in distances
    ensures vertices[i] in distances ==>
              (Nodes(vertices, distances, source)[i].badge.value == InfinityText <==> distances[vertices[i]].JInfinity?)
    ensures vertices[i] in distances && distances[vertices[i]].JNull? ==>
              Nodes(vertices, distances, source)[i].badge.value == []
  {
    assert SourceBackground[1] != VertexBackground[1];
  }

  /** The node with the corrected badge of Finding 2: `DistanceText`, which shows ∞ for
      `null` as well. */
  function CorrectedNodeAt(vertex: JsString, index: nat, distances: map<JsString, JsonValue>, source: JsString): Node {
    NodeAt(vertex, index, distances, source).(
      badge := if vertex in distances then Some(DistanceText(distances[vertex])) else None)
  }

  function CorrectedNodes(vertices: seq<JsString>, distances: map<JsString, JsonValue>, source: JsString): (r: seq<Node>)
    ensures |r| == |vertices|
    ensures forall i :: 0 <= i < |vertices| ==> r[i] == CorrectedNodeAt(vertices[i], i, distances, source)
  {
    seq(|vertices|, i requires 0 <= i < |vertices| => CorrectedNodeAt(vertices[i], i, distances, source))
  }

  /** With the corrected badge, a node shows ∞ exactly when its distance is not a number. */
  lemma CorrectedNodeStyle(vertices: seq<JsString>, distances: map<JsString, JsonValue>, source: JsString, i: nat)
    requires i < |vertices|
    ensures CorrectedNodes(vertices, distances, source)[i].badge.Some? <==> vertices[i] in distances
    ensures vertices[i] in distances ==>
              (CorrectedNodes(vertices, distances, source)[i].badge.value == InfinityText
               <==> !distances[vertices[i]].JNumber?)
  {
    if vertices[i] in distances && distances[vertices[i]].JNumber? {
      NumberTextNotInfinity(distances[vertices[i]].n);
    }
  }

  /** The corrected node differs from the node as written exactly when its distance is
      `null`, and then only in the badge. */
  lemma NodesDifferOnlyOnNull(vertices: seq<JsString>, distances: map<JsString, JsonValue>, source: JsString, i: nat)
    requires i < |vertices|
    ensures (CorrectedNodes(vertices, distances, source)[i] != Nodes(vertices, distances, source)[i])
            <==> vertices[i] in distances && distances[vertices[i]].JNull?
    ensures CorrectedNodes(vertices, distances, source)[i].(badge := None)
              == Nodes(vertices, distances, source)[i].(badge := None)
  {
    if vertices[i] in distances {
      DistanceTextDiffersOnlyOnNull(distances[vertices[i]]);
    }
  }

  /** Two different indices get two different grid positions. */
  lemma PositionsDistinct(i: nat, j: nat)
    requires i != j
    ensures X(i) != X(j) || Y(i) != Y(j)
  {
  }

  /** Every node sits in one of the three columns, and rows never go up as the index grows. */
  lemma GridShape(i: nat, j: nat)
    ensures X(i) == 100 || X(i) == 300 || X(i) == 500
    ensures i <= j ==> Y(i) <= Y(j)
  {
    if i <= j {
      DivMonotone(i, j);
    }
  }

  lemma DivMonotone(i: nat, j: nat)
    requires i <= j
    ensures i / 3 <= j / 3
  {
    assert i == 3 * (i / 3) + i % 3 && j == 3 * (j / 3) + j % 3;
  }

  // ---------------------------------------------------------------------------
  // Edges (lines 66-90)

  const DefaultStroke: JsString := Literal("#34495e")
  const PathStroke: JsString := Literal("#27ae60")
  const ArrowClosed: JsString := Literal("arrowclosed")
  const Dash: JsString := Literal("-")

  /** An edge record: id, endpoints, weight label, line colour and width, arrow type and colour. */
  datatype FlowEdge = FlowEdge(id: JsString, source: JsString, target: JsString, weight: int,
                               stroke: JsString, strokeWidth: int, markerType: JsString, markerColor: JsString)

  /** `` `e${edge.source}-${edge.destination}-${index}` ``. */
  function EdgeId(e: Edge, index: nat): JsString {
    Literal("e") + e.source + Dash + e.destination + Dash + Decimal(index)
  }

  /** The record of the edge at `index`, in the default style: no step edge is ever
      highlighted, as the answer carries no steps. */
  function FlowEdgeAt(e: Edge, index: nat): FlowEdge {
    FlowEdge(EdgeId(e, index), e.source, e.destination, e.weight, DefaultStroke, 2, ArrowClosed, DefaultStroke)
  }

  /** `edges.map(...)`. */
  function FlowEdges(edges: seq<Edge>): (r: seq<FlowEdge>)
    ensures |r| == |edges|
    ensures forall i :: 0 <= i < |edges| ==> r[i] == FlowEdgeAt(edges[i], i)
  {
    seq(|edges|, i requires 0 <= i < |edges| => FlowEdgeAt(edges[i], i))
  }

  /** A string that ends with a dash followed by a dash-free tail determines that tail. */
  lemma DashFreeTail(p1: JsString, t1: JsString, p2: JsString, t2: JsString)
    requires p1 + Dash + t1 == p2 + Dash + t2
    requires forall k :: 0 <= k < |t1| ==> t1[k] != Dash[0]
    requires forall k :: 0 <= k < |t2| ==> t2[k] != Dash[0]
    ensures t1 == t2
  {
    if |t1| < |t2| {
      DashAt(p1, t1);
      assert false;
    } else if |t2| < |t1| {
      DashAt(p2, t2);
      assert false;
    } else {
      var s := p1 + Dash + t1;
      assert t1 == s[|s| - |t1|..] == t2;
    }
  }

  lemma DashAt(p: JsString, t: JsString)
    ensures (p + Dash + t)[|p|] == Dash[0]
  {
  }

  /** Edge ids are unique across the list, whatever the endpoint names contain: the text
      after the last dash is the index, and different indices have different numerals. */
  lemma EdgeIdsUnique(edges: seq<Edge>, i: nat, j: nat)
    requires i < |edges| && j < |edges| && i != j
    ensures FlowEdges(edges)[i].id != FlowEdges(edges)[j].id
  {
    var ei, ej := edges[i], edges[j];
    if EdgeId(ei, i) == EdgeId(ej, j) {
      var di, dj := Decimal(i), Decimal(j);
      assert Dash[0] == 0x2D;
      assert forall k :: 0 <= k < |di| ==> di[k] != Dash[0];
      assert forall k :: 0 <= k < |dj| ==> dj[k] != Dash[0];
      assert EdgeId(ei, i) == (Literal("e") + ei.source + Dash + ei.destination) + Dash + di;
      assert EdgeId(ej, j) == (Literal("e") + ej.source + Dash + ej.destination) + Dash + dj;
      DashFreeTail(Literal("e") + ei.source + Dash + ei.destination, di,
                   Literal("e") + ej.source + Dash + ej.destination, dj);
      DecimalInjective(i, j);
    }
  }

  // ---------------------------------------------------------------------------
  // Predecessor edges (lines 110-124)

  /** An entry of `Object.entries(predecessors)`: a vertex and its predecessor, `None` for
      `null`. */
  type Entry = (JsString, Option<JsString>)

  /** `{ source: pred, target: vertex, isShortestPath: true }`. */
  datatype PathEdge = PathEdge(source: JsString, target: JsString)

  /** The test `pred && pred !== vertex`. */
  predicate Kept(entry: Entry) {
    Truthy(entry.1) && entry.1.value != entry.0
  }

  /** The predecessor edges of a list of entries, in entry order. */
  function PathEdgesOf(entries: seq<Entry>): (r: seq<PathEdge>)
    ensures |r| <= |entries|
    decreases |entries|
  {
    if entries == [] then []
    else
      var last := entries[|entries| - 1];
      PathEdgesOf(entries[..|entries| - 1]) + (if Kept(last) then [PathEdge(last.1.value, last.0)] else [])
  }

  /** A path edge is listed exactly when some entry has the edge's target as vertex and its
      source as a non-empty predecessor different from the vertex. */
  lemma {:induction false} PathEdgesOfMembership(entries: seq<Entry>, pe: PathEdge)
    ensures pe in PathEdgesOf(entries) <==>
              exists k :: 0 <= k < |entries| && entries[k] == (pe.target, Some(pe.source)) && Kept(entries[k])
    decreases |entries|
  {
    if entries != [] {
      var init := entries[..|entries| - 1];
      PathEdgesOfMembership(init, pe);
      if exists k :: 0 <= k < |init| && init[k] == (pe.target, Some(pe.source)) && Kept(init[k]) {
        var k :| 0 <= k < |init| && init[k] == (pe.target, Some(pe.source)) && Kept(init[k]);
        assert entries[k] == init[k];
      }
      if exists k :: 0 <= k < |entries| && entries[k] == (pe.target, Some(pe.source)) && Kept(entries[k]) {
        var k :| 0 <= k < |entries| && entries[k] == (pe.target, Some(pe.source)) && Kept(entries[k]);
        if k < |init| {
          assert init[k] == entries[k];
        }
      }
    }
  }

  /** `shortestPathEdges`: empty for a missing or empty predecessor object, otherwise the
      entries that pass the test, pushed in order. */
  method ShortestPathEdges(predecessors: Option<seq<Entry>>) returns (r: seq<PathEdge>)
    ensures predecessors.None? ==> r == []
    ensures predecessors.Some? ==> r == PathEdgesOf(predecessors.value)
  {
    if predecessors.None? || |predecessors.value| == 0 {
      return [];
    }
    var entries := predecessors.value;
    var pathEdges: seq<PathEdge> := [];
    for k := 0 to |entries|
      invariant pathEdges == PathEdgesOf(entries[..k])
    {
      var (vertex, pred) := entries[k];
      assert entries[..k + 1][..k] == entries[..k];
      if Truthy(pred) && pred.value != vertex {
        pathEdges := pathEdges + [PathEdge(pred.value, vertex)];
      }
    }
    assert entries[..|entries|] == entries;
    return pathEdges;
  }

  /** `Object.entries` of the route's predecessor object: every entry is a key with its
      value, and every key has an entry. */
  predicate EntriesOf(m: Predecessors, entries: seq<Entry>) {
    (forall k :: 0 <= k < |entries| ==> entries[k].0 in m && m[entries[k].0] == entries[k].1)
    && (forall x :: x in m ==> exists k :: 0 <= k < |entries| && entries[k].0 == x)
  }

  /** Without the negative-cycle flag, every highlighted predecessor edge is an edge of the
      request on which the reported distances are tight. */
  lemma PathEdgesAreRequestEdges(vertices: seq<JsString>, es: seq<Edge>, source: JsString,
                                 entries: seq<Entry>, pe: PathEdge)
    requires !Run(vertices, es, source).hasNegativeCycle
    requires EntriesOf(Run(vertices, es, source).predecessors, entries)
    requires pe in PathEdgesOf(entries)
    ensures exists k :: 0 <= k < |es| && es[k].source == pe.source && es[k].destination == pe.target
                        && Tight(Run(vertices, es, source).distances, es[k])
  {
    PathEdgesOfMembership(entries, pe);
    var k :| 0 <= k < |entries| && entries[k] == (pe.target, Some(pe.source)) && Kept(entries[k]);
    NoFlagPredecessorEdgesTight(vertices, es, source, pe.target);
  }

  // ---------------------------------------------------------------------------
  // Highlighting (lines 127-150)

  /** `shortestPathEdges.some(pathEdge => pathEdge.source === edge.source && pathEdge.target === edge.target)`. */
  predicate OnPath(pathEdges: seq<PathEdge>, fe: FlowEdge) {
    exists k :: 0 <= k < |pathEdges| && pathEdges[k] == PathEdge(fe.source, fe.target)
  }

  function Highlight(pathEdges: seq<PathEdge>, fe: FlowEdge): FlowEdge {
    var marked := OnPath(pathEdges, fe);
    fe.(stroke := if marked then PathStroke else fe.stroke,
        strokeWidth := if marked then 4 else fe.strokeWidth,
        markerType := ArrowClosed,
        markerColor := if marked then PathStroke else fe.markerColor)
  }

  /** The effect: when there are path edges, every edge record is mapped; otherwise the
      records stay as they are. */
  function HighlightEdges(pathEdges: seq<PathEdge>, flow: seq<FlowEdge>): (r: seq<FlowEdge>)
    ensures |r| == |flow|
    ensures pathEdges == [] ==> r == flow
    ensures pathEdges != [] ==> forall i :: 0 <= i < |flow| ==> r[i] == Highlight(pathEdges, flow[i])
  {
    if |pathEdges| > 0 then seq(|flow|, i requires 0 <= i < |flow| => Highlight(pathEdges, flow[i]))
    else flow
  }

  /** A highlighted record is green and four wide exactly when a path edge has its endpoints;
      every other record keeps its colour and width; id, endpoints and weight never change. */
  lemma HighlightMarks(pathEdges: seq<PathEdge>, flow: seq<FlowEdge>, i: nat)
    requires pathEdges != [] && i < |flow|
    ensures OnPath(pathEdges, flow[i]) ==>
              HighlightEdges(pathEdges, flow)[i].stroke == PathStroke
              && HighlightEdges(pathEdges, flow)[i].strokeWidth == 4
              && HighlightEdges(pathEdges, flow)[i].markerColor == PathStroke
    ensures !OnPath(pathEdges, flow[i]) ==>
              HighlightEdges(pathEdges, flow)[i].stroke == flow[i].stroke
              && HighlightEdges(pathEdges, flow)[i].strokeWidth == flow[i].strokeWidth
              && HighlightEdges(pathEdges, flow)[i].markerColor == flow[i].markerColor
    ensures HighlightEdges(pathEdges, flow)[i].id == flow[i].id
    ensures HighlightEdges(pathEdges, flow)[i].source == flow[i].source
    ensures HighlightEdges(pathEdges, flow)[i].target == flow[i].target
    ensures HighlightEdges(pathEdges, flow)[i].weight == flow[i].weight
  {
  }

  /** On the records built from the graph, an edge is drawn green exactly when it is on a
      path edge. */
  lemma HighlightGreenIffOnPath(pathEdges: seq<PathEdge>, edges: seq<Edge>, i: nat)
    requires pathEdges != [] && i < |edges|
    ensures HighlightEdges(pathEdges, FlowEdges(edges))[i].stroke == PathStroke <==>
              exists k :: 0 <= k < |pathEdges| && pathEdges[k] == PathEdge(edges[i].source, edges[i].destination)
  {
    assert DefaultStroke[1] != PathStroke[1];
  }

  /** The effect runs again whenever the records change; a second pass changes nothing. */
  lemma HighlightIdempotent(pathEdges: seq<PathEdge>, flow: seq<FlowEdge>)
    ensures HighlightEdges(pathEdges, HighlightEdges(pathEdges, flow)) == HighlightEdges(pathEdges, flow)
  {
    var once := HighlightEdges(pathEdges, flow);
    if pathEdges != [] {
      forall i | 0 <= i < |flow| ensures Highlight(pathEdges, once[i]) == once[i] {
        assert OnPath(pathEdges, once[i]) == OnPath(pathEdges, flow[i]) by {
          assert once[i].source == flow[i].source && once[i].target == flow[i].target;
        }
      }
    }
  }
}
