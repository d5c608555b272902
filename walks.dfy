/** Walks in the edge list of a request, used to state what the distances mean.
    Only edges whose two endpoints are keys of `distances` can ever be relaxed, so a
    walk is taken over the edges with both endpoints in a key set `K`. */
module Walks {
  import opened JsValues
  import opened GraphModel

  /** `p` is a walk from `s` to `t` over edges of `es` with both endpoints in `K`. */
  predicate IsWalk(es: seq<Edge>, K: set<JsString>, s: JsString, t: JsString, p: seq<Edge>) {
    (forall i :: 0 <= i < |p| ==> p[i] in es && p[i].source in K && p[i].destination in K)
    && (forall i :: 0 <= i < |p| - 1 ==> p[i].destination == p[i + 1].source)
    && (if p == [] then s == t else p[0].source == s && p[|p| - 1].destination == t)
  }

  /** The total weight of a walk. */
  function Weight(p: seq<Edge>): int
    decreases |p|
  {
    if p == [] then 0 else Weight(p[..|p| - 1]) + p[|p| - 1].weight
  }

  /** The i-th vertex visited by the walk `p` from `s` (the 0-th is `s`). */
  function At(s: JsString, p: seq<Edge>, i: nat): JsString
    requires i <= |p|
  {
    if i == 0 then s else p[i - 1].destination
  }

  /** No closed walk reachable from `s` has negative weight. */
  ghost predicate NoNegativeCycleFrom(es: seq<Edge>, K: set<JsString>, s: JsString) {
    forall x, p, c :: IsWalk(es, K, s, x, p) && IsWalk(es, K, x, x, c) ==> Weight(c) >= 0
  }

  lemma {:induction false} WeightAppend(p: seq<Edge>, q: seq<Edge>)
    ensures Weight(p + q) == Weight(p) + Weight(q)
    decreases |q|
  {
    if q == [] {
      assert p + q == p;
    } else {
      assert (p + q)[..|p + q| - 1] == p + q[..|q| - 1];
      WeightAppend(p, q[..|q| - 1]);
    }
  }

  /** Walks compose, and their weights add. */
  lemma WalkAppend(es: seq<Edge>, K: set<JsString>, s: JsString, x: JsString, t: JsString,
                   p: seq<Edge>, q: seq<Edge>)
    requires IsWalk(es, K, s, x, p) && IsWalk(es, K, x, t, q)
    ensures IsWalk(es, K, s, t, p + q)
    ensures Weight(p + q) == Weight(p) + Weight(q)
  {
    WeightAppend(p, q);
    if p == [] {
      assert p + q == q;
    } else if q == [] {
      assert p + q == p;
    } else {
      var r := p + q;
      forall i | 0 <= i < |r| - 1 ensures r[i].destination == r[i + 1].source {
        if i < |p| - 1 {
        } else if i == |p| - 1 {
          assert r[i] == p[|p| - 1] && r[i + 1] == q[0];
        } else {
          assert r[i] == q[i - |p|] && r[i + 1] == q[i - |p| + 1];
        }
      }
    }
  }

  /** The part of a walk between its i-th and j-th vertices is a walk between them. */
  lemma WalkSlice(es: seq<Edge>, K: set<JsString>, s: JsString, t: JsString, p: seq<Edge>,
                  i: nat, j: nat)
    requires IsWalk(es, K, s, t, p) && i <= j <= |p|
    ensures IsWalk(es, K, At(s, p, i), At(s, p, j), p[i..j])
  {
    if i < j {
      assert p[i].source == At(s, p, i) by {
        if i > 0 {
          assert p[i - 1].destination == p[i].source;
        }
      }
    }
  }

  /** A non-empty walk is a shorter walk followed by one edge into the target. */
  lemma LastEdge(es: seq<Edge>, K: set<JsString>, s: JsString, t: JsString, p: seq<Edge>)
    returns (q: seq<Edge>, e: Edge)
    requires IsWalk(es, K, s, t, p) && p != []
    ensures p == q + [e] && IsWalk(es, K, s, e.source, q)
    ensures e in es && e.source in K && e.destination == t && t in K
    ensures Weight(p) == Weight(q) + e.weight
  {
    q, e := p[..|p| - 1], p[|p| - 1];
    WalkSlice(es, K, s, t, p, 0, |p| - 1);
    assert p[0..|p| - 1] == q;
    assert p == q + [e];
  }

  /** The last vertex of a walk is its target. */
  lemma WalkEnd(es: seq<Edge>, K: set<JsString>, s: JsString, t: JsString, p: seq<Edge>)
    requires IsWalk(es, K, s, t, p)
    ensures At(s, p, |p|) == t
  {
  }

  /** `c` repeated k times. */
  function Repeat(c: seq<Edge>, k: nat): (r: seq<Edge>)
    ensures |r| == k * |c|
  {
    if k == 0 then [] else c + Repeat(c, k - 1)
  }

  /** Going k times round a negative closed walk is a closed walk of weight at most -k. */
  lemma {:induction false} RepeatNegative(es: seq<Edge>, K: set<JsString>, x: JsString,
                                          c: seq<Edge>, k: nat)
    requires IsWalk(es, K, x, x, c) && Weight(c) < 0
    ensures IsWalk(es, K, x, x, Repeat(c, k))
    ensures Weight(Repeat(c, k)) + k <= 0
  {
    if k > 0 {
      RepeatNegative(es, K, x, c, k - 1);
      WalkAppend(es, K, x, x, x, c, Repeat(c, k - 1));
    }
  }

  /** Among more than |K| values drawn from K two are equal. */
  lemma {:induction false} Pigeonhole(xs: seq<JsString>, K: set<JsString>) returns (i: nat, j: nat)
    requires forall k :: 0 <= k < |xs| ==> xs[k] in K
    requires |xs| > |K|
    ensures i < j < |xs| && xs[i] == xs[j]
    decreases |xs|
  {
    var last := xs[|xs| - 1];
    var rest := xs[..|xs| - 1];
    if k :| 0 <= k < |rest| && rest[k] == last {
      i, j := k, |xs| - 1;
    } else {
      assert |K - {last}| == |K| - 1;
      i, j := Pigeonhole(rest, K - {last});
    }
  }

  /** Cutting the closed walk between two visits of the same vertex out of a walk from `s`
      leaves a shorter walk from `s` that is no heavier. */
  lemma CutCycle(es: seq<Edge>, K: set<JsString>, s: JsString, t: JsString, p: seq<Edge>,
                 i: nat, j: nat) returns (r: seq<Edge>)
    requires IsWalk(es, K, s, t, p) && NoNegativeCycleFrom(es, K, s)
    requires i < j <= |p| && At(s, p, i) == At(s, p, j)
    ensures IsWalk(es, K, s, t, r) && |r| < |p| && Weight(r) <= Weight(p)
  {
    var x := At(s, p, i);
    WalkSlice(es, K, s, t, p, 0, i);
    WalkSlice(es, K, s, t, p, i, j);
    WalkSlice(es, K, s, t, p, j, |p|);
    WalkEnd(es, K, s, t, p);
    var prefix, cycle, suffix := p[..i], p[i..j], p[j..];
    assert p[0..i] == prefix && p[j..|p|] == suffix;
    assert Weight(cycle) >= 0;
    assert p == prefix + cycle + suffix;
    WeightAppend(prefix, cycle);
    WeightAppend(prefix + cycle, suffix);
    WalkAppend(es, K, s, x, t, prefix, suffix);
    r := prefix + suffix;
  }

  /** Without a negative cycle reachable from `s`, every walk from `s` can be replaced by
      one of at most |K| - 1 edges that is no heavier. */
  lemma {:induction false} ShortenWalk(es: seq<Edge>, K: set<JsString>, s: JsString, t: JsString,
                                       p: seq<Edge>) returns (q: seq<Edge>)
    requires s in K && IsWalk(es, K, s, t, p) && NoNegativeCycleFrom(es, K, s)
    ensures IsWalk(es, K, s, t, q) && |q| <= |K| - 1 && Weight(q) <= Weight(p)
    decreases |p|
  {
    if |p| <= |K| - 1 {
      return p;
    }
    var vs := seq(|p| + 1, k requires 0 <= k <= |p| => At(s, p, k));
    var i, j := Pigeonhole(vs, K);
    assert At(s, p, i) == At(s, p, j);
    var r := CutCycle(es, K, s, t, p, i, j);
    q := ShortenWalk(es, K, s, t, r);
  }
}
