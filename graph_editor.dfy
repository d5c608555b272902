/** The graph-editing handlers of frontend/src/components/BellmanFord.jsx. Each builds a new
    graph record from the old one, with spreads and `filter`; the React state update that
    stores the result is left to the caller. */
module GraphEditor {
  import opened JsValues
  import opened GraphModel

  /** `graph.vertices.filter((_, i) => i !== index)`: the list without its entry at `index`,
      and the same list when `index` is not a position of it. */
  function WithoutIndex<T>(xs: seq<T>, index: int): (r: seq<T>)
    ensures 0 <= index < |xs| ==> |r| == |xs| - 1
    ensures 0 <= index < |xs| ==> forall i :: 0 <= i < |r| ==> r[i] == (if i < index then xs[i] else xs[i + 1])
    ensures !(0 <= index < |xs|) ==> r == xs
  {
    if 0 <= index < |xs| then xs[..index] + xs[index + 1..] else xs
  }

  /** `graph.edges.filter(edge => edge.source !== v && edge.destination !== v)`. */
  function EdgesAvoiding(es: seq<Edge>, v: JsString): (r: seq<Edge>)
    ensures |r| <= |es|
    ensures forall e :: e in r <==> e in es && !Touches(e, v)
    decreases |es|
  {
    if es == [] then []
    else if Touches(es[0], v) then EdgesAvoiding(es[1..], v)
    else [es[0]] + EdgesAvoiding(es[1..], v)
  }

  /** The filter keeps the edges in their order: filtering a concatenation filters each
      part in turn. */
  lemma {:induction false} EdgesAvoidingAppend(a: seq<Edge>, b: seq<Edge>, v: JsString)
    ensures EdgesAvoiding(a + b, v) == EdgesAvoiding(a, v) + EdgesAvoiding(b, v)
    decreases |a|
  {
    if a != [] {
      assert (a + b)[1..] == a[1..] + b;
      EdgesAvoidingAppend(a[1..], b, v);
    } else {
      assert a + b == b;
    }
  }

  /** `handleVertexChange(index, value)`: the entry at `index` becomes the upper-cased value;
      nothing else changes. */
  function ChangeVertex(g: Graph, index: nat, value: JsString): (r: Graph)
    requires index < |g.vertices|
    ensures |r.vertices| == |g.vertices|
    ensures r.vertices[index] == ToUpperCase(value)
    ensures forall i :: 0 <= i < |g.vertices| && i != index ==> r.vertices[i] == g.vertices[i]
    ensures r.edges == g.edges && r.source == g.source
  {
    g.(vertices := g.vertices[index := ToUpperCase(value)])
  }

  /** Typing the same text again changes nothing more. */
  lemma ChangeVertexIdempotent(g: Graph, index: nat, value: JsString)
    requires index < |g.vertices|
    ensures ChangeVertex(ChangeVertex(g, index, value), index, value) == ChangeVertex(g, index, value)
  {
  }

  /** Renaming a vertex leaves `source` as it was, so renaming the source vertex of the
      default graph to Z leaves a source that is no longer among the vertices. */
  lemma RenamingSourceUnlistsIt()
    ensures ChangeVertex(DefaultGraph, 0, [0x7A]).source !in ChangeVertex(DefaultGraph, 0, [0x7A]).vertices
  {
    var r := ChangeVertex(DefaultGraph, 0, [0x7A]);
    assert ToUpperCase([0x7A]) == [0x5A] by {
      assert UpperUnit(0x7A) == 0x5A;
    }
    assert r.vertices == [[0x5A], B, C, D];
    assert r.source == A;
    forall i | 0 <= i < 4 ensures r.vertices[i] != A {
      assert r.vertices[i][0] != A[0];
    }
  }

  /** `addVertex`: appends `String.fromCharCode(65 + vertices.length)`, the letter after the
      last one of a list built only by this button. */
  function AddVertex(g: Graph): (r: Graph)
    ensures r.vertices == g.vertices + [FromCharCode(65 + |g.vertices|)]
    ensures r.edges == g.edges && r.source == g.source
  {
    g.(vertices := g.vertices + [FromCharCode(65 + |g.vertices|)])
  }

  /** `removeVertex(index)`. The removed vertex is `graph.vertices[index]`, `undefined` when
      `index` is not a position; as no edge and no source is `undefined`, such a call changes
      nothing. */
  function RemoveVertex(g: Graph, index: int): (r: Graph)
    ensures !(0 <= index < |g.vertices|) ==> r == g
    ensures 0 <= index < |g.vertices| ==>
              r.vertices == WithoutIndex(g.vertices, index)
              && r.edges == EdgesAvoiding(g.edges, g.vertices[index])
              && (g.source == g.vertices[index] ==> r.source == (if r.vertices == [] then [] else r.vertices[0]))
              && (g.source != g.vertices[index] ==> r.source == g.source)
  {
    if 0 <= index < |g.vertices| then
      var gone := g.vertices[index];
      var vs := WithoutIndex(g.vertices, index);
      Graph(vs, EdgesAvoiding(g.edges, gone),
            if g.source == gone then (if vs == [] then [] else vs[0]) else g.source)
    else g
  }

  /** After `removeVertex`, no edge names the removed vertex, and every other edge is kept. */
  lemma RemoveVertexDropsIncidentEdges(g: Graph, index: nat, e: Edge)
    requires index < |g.vertices|
    ensures e in RemoveVertex(g, index).edges <==> e in g.edges && !Touches(e, g.vertices[index])
  {
  }

  /** `addVertex` followed by `removeVertex` of the new last entry gives the graph back when
      the new letter was not in use as an endpoint or as the source. */
  lemma {:induction false} RemoveVertexUndoesAddVertex(g: Graph)
    requires forall e :: e in g.edges ==> !Touches(e, FromCharCode(65 + |g.vertices|))
    requires g.source != FromCharCode(65 + |g.vertices|)
    ensures RemoveVertex(AddVertex(g), |g.vertices|) == g
  {
    var added := AddVertex(g);
    assert WithoutIndex(added.vertices, |g.vertices|) == g.vertices;
    EdgesAvoidingNoTouch(g.edges, FromCharCode(65 + |g.vertices|));
  }

  /** Filtering out a vertex no edge touches keeps the edge list as it is. */
  lemma {:induction false} EdgesAvoidingNoTouch(es: seq<Edge>, v: JsString)
    requires forall e :: e in es ==> !Touches(e, v)
    ensures EdgesAvoiding(es, v) == es
    decreases |es|
  {
    if es != [] {
      assert es[0] in es;
      assert forall e :: e in es[1..] ==> e in es;
      EdgesAvoidingNoTouch(es[1..], v);
    }
  }

  /** The three fields an edge row edits: `handleEdgeChange(index, field, value)`. The weight
      input passes `parseInt(e.target.value) || 0`, an integer. */
  datatype EdgeChange = SetSource(source: JsString) | SetDestination(destination: JsString) | SetWeight(weight: int)

  function Apply(e: Edge, c: EdgeChange): Edge {
    match c
    case SetSource(s) => e.(source := s)
    case SetDestination(d) => e.(destination := d)
    case SetWeight(w) => e.(weight := w)
  }

  /** `handleEdgeChange`: only the named field of the edge at `index` changes. */
  function ChangeEdge(g: Graph, index: nat, c: EdgeChange): (r: Graph)
    requires index < |g.edges|
    ensures |r.edges| == |g.edges|
    ensures forall i :: 0 <= i < |g.edges| && i != index ==> r.edges[i] == g.edges[i]
    ensures c.SetSource? ==> r.edges[index] == Edge(c.source, g.edges[index].destination, g.edges[index].weight)
    ensures c.SetDestination? ==> r.edges[index] == Edge(g.edges[index].source, c.destination, g.edges[index].weight)
    ensures c.SetWeight? ==> r.edges[index] == Edge(g.edges[index].source, g.edges[index].destination, c.weight)
    ensures r.vertices == g.vertices && r.source == g.source
  {
    g.(edges := g.edges[index := Apply(g.edges[index], c)])
  }

  /** `addEdge`: appends `{ source: '', destination: '', weight: 1 }`. */
  function AddEdge(g: Graph): (r: Graph)
    ensures r.edges == g.edges + [Edge([], [], 1)]
    ensures r.vertices == g.vertices && r.source == g.source
  {
    g.(edges := g.edges + [Edge([], [], 1)])
  }

  /** `removeEdge(index)`: only the edge at `index` goes; an index that is not a position
      changes nothing. */
  function RemoveEdge(g: Graph, index: int): (r: Graph)
    ensures 0 <= index < |g.edges| ==> |r.edges| == |g.edges| - 1
    ensures 0 <= index < |g.edges| ==>
              r.edges[..index] == g.edges[..index] && r.edges[index..] == g.edges[index + 1..]
    ensures !(0 <= index < |g.edges|) ==> r == g
    ensures r.vertices == g.vertices && r.source == g.source
  {
    g.(edges := WithoutIndex(g.edges, index))
  }

  /** `removeEdge` of the row `addEdge` appended gives the graph back. */
  lemma RemoveEdgeUndoesAddEdge(g: Graph)
    ensures RemoveEdge(AddEdge(g), |g.edges|) == g
  {
    assert WithoutIndex(AddEdge(g).edges, |g.edges|) == g.edges;
  }
}
