/**
 * Directed graphs as adjacency maps, and the walks through them that the
 * traversals of `Graph` follow: paths, reachability and shortest paths.
 */
module Digraph {
  type Vertex = int

  /** Each vertex label mapped to the set of vertices its edges lead to. */
  type Adjacency = map<Vertex, set<Vertex>>

  /** Every edge leads to a vertex of the graph: what `add_edge`'s checks keep true. */
  ghost predicate Closed(g: Adjacency)
  {
    forall v, w :: v in g && w in g[v] ==> w in g
  }

  function Last(p: seq<Vertex>): Vertex
    requires p != []
  {
    p[|p| - 1]
  }

  /** `p` is a non-empty list of vertices whose consecutive entries are edges of `g`. */
  ghost predicate IsPath(g: Adjacency, p: seq<Vertex>)
    decreases |p|
  {
    && p != []
    && (|p| >= 2 ==>
          && IsPath(g, p[..|p| - 1])
          && p[|p| - 2] in g && p[|p| - 1] in g[p[|p| - 2]])
  }

  ghost predicate PathFromTo(g: Adjacency, p: seq<Vertex>, s: Vertex, t: Vertex)
  {
    IsPath(g, p) && p[0] == s && Last(p) == t
  }

  ghost predicate Reachable(g: Adjacency, s: Vertex, t: Vertex)
  {
    exists p :: PathFromTo(g, p, s, t)
  }

  /** `p` leads from `s` to `t` and no path from `s` to `t` has fewer vertices. */
  ghost predicate Shortest(g: Adjacency, p: seq<Vertex>, s: Vertex, t: Vertex)
  {
    PathFromTo(g, p, s, t) && forall q :: PathFromTo(g, q, s, t) ==> |p| <= |q|
  }

  /** No vertex occurs twice. */
  ghost predicate Distinct(s: seq<Vertex>)
  {
    forall i, j :: 0 <= i < j < |s| ==> s[i] != s[j]
  }

  lemma PathExtend(g: Adjacency, p: seq<Vertex>, s: Vertex, v: Vertex, e: Vertex)
    requires PathFromTo(g, p, s, v) && v in g && e in g[v]
    ensures PathFromTo(g, p + [e], s, e)
  {
    assert (p + [e])[..|p|] == p;
  }

  lemma {:induction false} PathPrefix(g: Adjacency, p: seq<Vertex>, k: nat)
    requires IsPath(g, p) && 1 <= k <= |p|
    ensures IsPath(g, p[..k])
    decreases |p|
  {
    if k < |p| {
      PathPrefix(g, p[..|p| - 1], k);
      assert p[..|p| - 1][..k] == p[..k];
    } else {
      assert p[..k] == p;
    }
  }

  /** A path with at least two vertices is a shorter path to the vertex before its last, and one more edge. */
  lemma PathBack(g: Adjacency, p: seq<Vertex>, s: Vertex, t: Vertex)
    requires PathFromTo(g, p, s, t) && |p| >= 2
    ensures PathFromTo(g, p[..|p| - 1], s, p[|p| - 2]) && p[|p| - 2] in g && t in g[p[|p| - 2]]
  {
  }

  lemma ReachStep(g: Adjacency, s: Vertex, v: Vertex, e: Vertex)
    requires Reachable(g, s, v) && v in g && e in g[v]
    ensures Reachable(g, s, e)
  {
    var p :| PathFromTo(g, p, s, v);
    PathExtend(g, p, s, v, e);
  }

  lemma ReachSelf(g: Adjacency, s: Vertex)
    ensures Reachable(g, s, s)
  {
    assert PathFromTo(g, [s], s, s);
  }

  /** Joining a path from `s` to `v` and a path from `v` to `t`. */
  lemma {:induction false} PathJoin(g: Adjacency, p: seq<Vertex>, q: seq<Vertex>, s: Vertex, v: Vertex, t: Vertex)
    requires PathFromTo(g, p, s, v) && PathFromTo(g, q, v, t)
    ensures PathFromTo(g, p + q[1..], s, t)
    decreases |q|
  {
    if |q| == 1 {
      assert p + q[1..] == p;
    } else {
      var q' := q[..|q| - 1];
      PathJoin(g, p, q', s, v, q[|q| - 2]);
      assert q'[1..] == q[1..][..|q| - 2];
      assert (p + q[1..])[..|p + q[1..]| - 1] == p + q'[1..];
    }
  }

  lemma ReachTrans(g: Adjacency, s: Vertex, v: Vertex, t: Vertex)
    requires Reachable(g, s, v) && Reachable(g, v, t)
    ensures Reachable(g, s, t)
  {
    var p :| PathFromTo(g, p, s, v);
    var q :| PathFromTo(g, q, v, t);
    PathJoin(g, p, q, s, v, t);
  }

  /**
   * A set that holds `s` and, with each of its vertices, all of that
   * vertex's neighbours, holds every vertex reachable from `s`.
   */
  lemma {:induction false} ClosedReach(g: Adjacency, c: set<Vertex>, p: seq<Vertex>, s: Vertex, t: Vertex)
    requires s in c && (forall v :: v in c && v in g ==> g[v] <= c)
    requires PathFromTo(g, p, s, t)
    ensures t in c
    decreases |p|
  {
    if |p| >= 2 {
      PathBack(g, p, s, t);
      ClosedReach(g, c, p[..|p| - 1], s, p[|p| - 2]);
    }
  }

  lemma ClosedReachAll(g: Adjacency, c: set<Vertex>, s: Vertex)
    requires s in c && (forall v :: v in c && v in g ==> g[v] <= c)
    ensures forall t :: Reachable(g, s, t) ==> t in c
  {
    forall t | Reachable(g, s, t) ensures t in c {
      var p :| PathFromTo(g, p, s, t);
      ClosedReach(g, c, p, s, t);
    }
  }
}
