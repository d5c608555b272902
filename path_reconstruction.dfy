/** `getPath` of frontend/src/components/BellmanFord.jsx: the text shown in the "Caminho"
    column, rebuilt by walking the predecessor map backwards from a vertex.

    The walk can meet JavaScript's `null` (a predecessor entry that is null) and `undefined`
    (a vertex that is not a key of the map); a `Slot` keeps those apart from names.
    Looking up `undefined` or `null` reads the keys "undefined" and "null", as a property
    access converts its key to a string. */
module PathReconstruction {
  import opened JsValues
  import opened BellmanFordSpec

  /** A value `current` can hold. */
  datatype Slot = Null | Undef | Name(name: JsString)

  /** The three shapes of the answer: the vertex itself, the "unreachable" text, or the
      list that is joined with arrows. */
  datatype PathOutcome = Itself | Unreachable | Walk(nodes: seq<Slot>)

  const NullKey: JsString := Literal("null")
  const UndefinedKey: JsString := Literal("undefined")
  const UnreachableText: JsString := Literal("Inalcançável")
  const Arrow: JsString := Literal(" → ")

  /** `predecessors[current]`. */
  function Lookup(preds: Predecessors, s: Slot): (r: Slot)
    ensures r != Undef ==> (s.Name? && s.name in preds) || (s.Undef? && UndefinedKey in preds)
                           || (s.Null? && NullKey in preds)
    ensures s.Name? && s.name in preds ==>
              r == (if preds[s.name].Some? then Name(preds[s.name].value) else Null)
  {
    var key := match s
      case Null => NullKey
      case Undef => UndefinedKey
      case Name(x) => x;
    if key !in preds then Undef
    else if preds[key].Some? then Name(preds[key].value)
    else Null
  }

  predicate Distinct(xs: seq<Slot>) {
    forall i, j :: 0 <= i < j < |xs| ==> xs[i] != xs[j]
  }

  /** From index `from` on, every entry but the last is the predecessor lookup of the entry
      after it. */
  predicate Linked(preds: Predecessors, xs: seq<Slot>, from: nat) {
    forall i :: from <= i < |xs| - 1 ==> xs[i] == Lookup(preds, xs[i + 1])
  }

  /** `nodes` is what the backward walk from `vertex` produces: the source, then the walk
      in forward order, ending at `vertex`, with no repetition and no `null`; the walk stopped
      at the first lookup that gave `null`, the source, or an entry already collected. */
  predicate TracedBack(preds: Predecessors, source: JsString, vertex: JsString, nodes: seq<Slot>) {
    BackChain(preds, vertex, nodes) && nodes[0] == Name(source)
    && Distinct(nodes) && Null !in nodes
    && (Lookup(preds, nodes[1]) == Null || Lookup(preds, nodes[1]) == Name(source)
        || Lookup(preds, nodes[1]) in nodes[1..])
  }

  /** After a first entry, `nodes` follows predecessor lookups back from `vertex`. */
  predicate BackChain(preds: Predecessors, vertex: JsString, nodes: seq<Slot>) {
    |nodes| >= 2 && nodes[|nodes| - 1] == Name(vertex) && Linked(preds, nodes, 1)
  }

  /** Every value the walk can visit besides `null`. */
  ghost function Reachable(preds: Predecessors, vertex: JsString): set<Slot> {
    {Name(vertex), Undef} + (set k | k in preds && preds[k].Some? :: Name(preds[k].value))
  }

  lemma LookupReachable(preds: Predecessors, vertex: JsString, s: Slot)
    ensures Lookup(preds, s) != Null ==> Lookup(preds, s) in Reachable(preds, vertex)
  {
  }

  /** A list without repetitions drawn from a set is no longer than the set is large. */
  lemma {:induction false} DistinctBound(xs: seq<Slot>, u: set<Slot>)
    requires Distinct(xs) && forall i :: 0 <= i < |xs| ==> xs[i] in u
    ensures |xs| <= |u|
    decreases |xs|
  {
    if xs != [] {
      var rest := xs[1..];
      assert forall i :: 0 <= i < |rest| ==> rest[i] in u - {xs[0]} by {
        forall i | 0 <= i < |rest| ensures rest[i] in u - {xs[0]} {
          assert rest[i] == xs[i + 1];
        }
      }
      DistinctBound(rest, u - {xs[0]});
    }
  }

  /** The loop state of `getPath`: `path` holds the values collected so far in forward order,
      ending at `vertex`, and `current` is the lookup of its first entry. */
  predicate Collected(preds: Predecessors, source: JsString, vertex: JsString,
                      path: seq<Slot>, current: Slot) {
    Distinct(path) && Null !in path && Name(source) !in path && current !in path
    && (path == [] ==> current == Name(vertex))
    && (path != [] ==> path[|path| - 1] == Name(vertex) && current == Lookup(preds, path[0]))
    && Linked(preds, path, 0)
  }

  /** One pass of the loop: `path.unshift(current)`, then `current = predecessors[current]`. */
  lemma CollectStep(preds: Predecessors, source: JsString, vertex: JsString,
                    path: seq<Slot>, current: Slot)
    requires Collected(preds, source, vertex, path, current)
    requires current != Null && current != Name(source)
    ensures Distinct([current] + path) && Null !in [current] + path
    ensures Name(source) !in [current] + path
    ensures ([current] + path)[|path|] == Name(vertex)
    ensures Linked(preds, [current] + path, 0)
    ensures Lookup(preds, current) !in [current] + path ==>
              Collected(preds, source, vertex, [current] + path, Lookup(preds, current))
  {
    var p := [current] + path;
    forall i | 0 <= i < |p| - 1 ensures p[i] == Lookup(preds, p[i + 1]) {
      if i > 0 {
        assert p[i] == path[i - 1] && p[i + 1] == path[i];
      }
    }
    forall i, j | 0 <= i < j < |p| ensures p[i] != p[j] {
      if i > 0 {
        assert p[i] == path[i - 1] && p[j] == path[j - 1];
      } else {
        assert p[j] == path[j - 1];
      }
    }
  }

  /** The backward walk with its `path.includes(current)` guard. It always terminates: each
      pass adds a value that was not collected yet, and only finitely many exist. */
  method GetPath(vertex: JsString, preds: Predecessors, source: JsString) returns (r: PathOutcome)
    ensures r.Itself? <==> vertex == source
    ensures r.Unreachable? <==> vertex != source && vertex in preds && preds[vertex].None?
    ensures r.Walk? ==> TracedBack(preds, source, vertex, r.nodes)
  {
    if vertex == source {
      return Itself;
    }
    if vertex in preds && preds[vertex].None? {
      return Unreachable;
    }
    var path: seq<Slot> := [];
    var current := Name(vertex);
    ghost var u := Reachable(preds, vertex);
    while current != Null && current != Name(source)
      invariant current in u || current == Null
      invariant forall i :: 0 <= i < |path| ==> path[i] in u
      invariant Collected(preds, source, vertex, path, current)
      decreases |u| - |path|
    {
      CollectStep(preds, source, vertex, path, current);
      DistinctBound([current] + path, u);
      LookupReachable(preds, vertex, current);
      path := [current] + path;
      current := Lookup(preds, current);
      if current in path {
        break;
      }
    }
    FinishWalk(preds, source, vertex, path, current);
    r := Walk([Name(source)] + path);
  }

  /** After the loop: `path.unshift(source)` gives a traced list. */
  lemma FinishWalk(preds: Predecessors, source: JsString, vertex: JsString,
                   path: seq<Slot>, current: Slot)
    requires path != [] && path[|path| - 1] == Name(vertex)
    requires Distinct(path) && Null !in path && Name(source) !in path && Linked(preds, path, 0)
    requires current == Lookup(preds, path[0])
    requires current == Null || current == Name(source) || current in path
    ensures TracedBack(preds, source, vertex, [Name(source)] + path)
  {
    var n := [Name(source)] + path;
    assert n[1..] == path;
    forall i | 1 <= i < |n| - 1 ensures n[i] == Lookup(preds, n[i + 1]) {
      assert n[i] == path[i - 1] && n[i + 1] == path[i];
    }
    forall i, j | 0 <= i < j < |n| ensures n[i] != n[j] {
      assert n[j] == path[j - 1];
      if i > 0 {
        assert n[i] == path[i - 1];
      }
    }
  }

  /** The description of `TracedBack` fixes the answer: two lists that both satisfy it are
      equal, so the contract of `GetPath` says all there is to say about its result. */
  lemma TracedBackUnique(preds: Predecessors, source: JsString, vertex: JsString,
                         n1: seq<Slot>, n2: seq<Slot>)
    requires TracedBack(preds, source, vertex, n1) && TracedBack(preds, source, vertex, n2)
    ensures n1 == n2
  {
    if |n1| < |n2| {
      LongerWalkedOn(preds, vertex, n1, n2);
      assert false;
    } else if |n2| < |n1| {
      LongerWalkedOn(preds, vertex, n2, n1);
      assert false;
    } else {
      forall i | 0 <= i < |n1| ensures n1[i] == n2[i] {
        if i > 0 {
          AgreeFromEnd(preds, vertex, n1, n2, |n1| - 1 - i);
        }
      }
    }
  }

  /** From the end backwards, two chains agree entry by entry. */
  lemma {:induction false} AgreeFromEnd(preds: Predecessors, vertex: JsString,
                                        n1: seq<Slot>, n2: seq<Slot>, j: nat)
    requires BackChain(preds, vertex, n1) && BackChain(preds, vertex, n2)
    requires j < |n1| - 1 && j < |n2| - 1
    ensures n1[|n1| - 1 - j] == n2[|n2| - 1 - j]
    decreases j
  {
    if j > 0 {
      AgreeFromEnd(preds, vertex, n1, n2, j - 1);
      assert n1[|n1| - 1 - j] == Lookup(preds, n1[|n1| - j]);
      assert n2[|n2| - 1 - j] == Lookup(preds, n2[|n2| - j]);
    }
  }

  /** Where a shorter chain stops, a longer one goes on: its entries after the source
      reappear in the longer one shifted by the difference d of the lengths, and the lookup
      at which the shorter one stopped is entry d of the longer one. */
  lemma LongerWalkedOn(preds: Predecessors, vertex: JsString, short: seq<Slot>, long: seq<Slot>)
    requires BackChain(preds, vertex, short) && BackChain(preds, vertex, long)
    requires |short| < |long|
    ensures forall i :: 1 <= i < |short| ==> short[i] == long[i + |long| - |short|]
    ensures Lookup(preds, short[1]) == long[|long| - |short|]
  {
    var d := |long| - |short|;
    forall i | 1 <= i < |short| ensures short[i] == long[i + d] {
      AgreeFromEnd(preds, vertex, short, long, |short| - 1 - i);
    }
    assert long[d] == Lookup(preds, long[d + 1]);
  }

  /** `path.join(' → ')`: entries that are `undefined` or `null` print as nothing. */
  function SlotText(s: Slot): JsString {
    if s.Name? then s.name else []
  }

  function Texts(nodes: seq<Slot>): (r: seq<JsString>)
    ensures |r| == |nodes| && forall i :: 0 <= i < |nodes| ==> r[i] == SlotText(nodes[i])
  {
    seq(|nodes|, i requires 0 <= i < |nodes| => SlotText(nodes[i]))
  }

  /** `Texts` of a concatenation is the concatenation of the `Texts`. */
  lemma TextsAppend(a: seq<Slot>, b: seq<Slot>)
    ensures Texts(a + b) == Texts(a) + Texts(b)
  {
    assert |Texts(a + b)| == |Texts(a) + Texts(b)|;
    forall i | 0 <= i < |a + b| ensures Texts(a + b)[i] == (Texts(a) + Texts(b))[i] {
      if i >= |a| {
        assert (a + b)[i] == b[i - |a|];
      }
    }
  }

  /** The string `getPath` returns for each outcome. */
  function Render(vertex: JsString, o: PathOutcome): (r: JsString)
    ensures o.Itself? ==> r == vertex
    ensures o.Unreachable? ==> r == UnreachableText
  {
    match o
    case Itself => vertex
    case Unreachable => UnreachableText
    case Walk(nodes) => Join(Texts(nodes), Arrow)
  }

  /** The text of a traced walk: the source's name, then an arrow and the rest; the part up
      to the vertex, then an arrow and the vertex's name; and at every cut between two
      consecutive entries, the text of the part before, an arrow and the text of the part
      after. */
  lemma RenderWalk(preds: Predecessors, source: JsString, vertex: JsString, nodes: seq<Slot>)
    requires TracedBack(preds, source, vertex, nodes)
    ensures Render(vertex, Walk(nodes)) == source + Arrow + Join(Texts(nodes[1..]), Arrow)
    ensures Render(vertex, Walk(nodes)) == Join(Texts(nodes[..|nodes| - 1]), Arrow) + Arrow + vertex
    ensures forall k :: 1 <= k < |nodes| ==>
              Render(vertex, Walk(nodes)) == Join(Texts(nodes[..k]), Arrow) + Arrow + Join(Texts(nodes[k..]), Arrow)
  {
    forall k | 1 <= k < |nodes|
      ensures Render(vertex, Walk(nodes)) == Join(Texts(nodes[..k]), Arrow) + Arrow + Join(Texts(nodes[k..]), Arrow)
    {
      assert nodes == nodes[..k] + nodes[k..];
      TextsAppend(nodes[..k], nodes[k..]);
      JoinSplit(Texts(nodes[..k]), Texts(nodes[k..]), Arrow);
    }
    assert Texts(nodes[..1]) == [source];
    assert Texts(nodes[|nodes| - 1..]) == [vertex];
  }
}
