/**
 * `Graph` of projects/graph/graph.py: a directed graph stored as a map from
 * each vertex to the set of its neighbours, with insertion, the four
 * traversals and the three path searches.
 */
module AdjacencyGraph {
  import opened Wrappers
  import opened Digraph
  import opened Sets

  /** The result of an operation that raises on a vertex that is not in the graph. */
  datatype Outcome<T> = Ok(value: T) | Missing(vertex: Vertex)

  /** `add_vertex`: a new vertex gets no edges; an existing one is left as it is. */
  function WithVertex(g: Adjacency, v: Vertex): (h: Adjacency)
    ensures h.Keys == g.Keys + {v}
    ensures forall u :: u in g ==> h[u] == g[u]
    ensures v !in g ==> h[v] == {}
  {
    if v in g then g else g[v := {}]
  }

  /** `add_edge`: fails on `v1`, then on `v2`, if absent; otherwise `v2` joins the neighbours of `v1`. */
  function Connect(g: Adjacency, v1: Vertex, v2: Vertex): (r: Outcome<Adjacency>)
    ensures r.Missing? <==> v1 !in g || v2 !in g
    ensures r.Missing? ==> r.vertex == if v1 !in g then v1 else v2
    ensures r.Ok? ==> && r.value.Keys == g.Keys && r.value[v1] == g[v1] + {v2}
                      && forall u :: u in g && u != v1 ==> r.value[u] == g[u]
  {
    if v1 !in g then Missing(v1)
    else if v2 !in g then Missing(v2)
    else Ok(g[v1 := g[v1] + {v2}])
  }

  lemma WithVertexIdempotent(g: Adjacency, v: Vertex)
    ensures WithVertex(WithVertex(g, v), v) == WithVertex(g, v)
  {
  }

  lemma WithVertexClosed(g: Adjacency, v: Vertex)
    requires Closed(g)
    ensures Closed(WithVertex(g, v))
  {
  }

  lemma ConnectIdempotent(g: Adjacency, v1: Vertex, v2: Vertex)
    requires Connect(g, v1, v2).Ok?
    ensures Connect(Connect(g, v1, v2).value, v1, v2) == Connect(g, v1, v2)
  {
    var h := Connect(g, v1, v2).value;
    assert h[v1 := h[v1] + {v2}] == h;
  }

  lemma ConnectClosed(g: Adjacency, v1: Vertex, v2: Vertex)
    requires Closed(g) && Connect(g, v1, v2).Ok?
    ensures Closed(Connect(g, v1, v2).value)
  {
  }

  /** What `bft` and `dft` print: the start first, then every vertex reachable from it, each once. */
  ghost predicate VisitOrder(g: Adjacency, s: Vertex, order: seq<Vertex>)
  {
    && order != [] && order[0] == s && Distinct(order)
    && forall v :: v in order <==> Reachable(g, s, v)
  }

  /**
   * The state of `bft` and `dft` between steps. `order` holds the vertices
   * printed so far and `pending` the queue or stack; `discovered` is exactly
   * the two together, and each vertex is in one of them once. Every printed
   * vertex has all its neighbours discovered, except the members of `todo`
   * for the last one printed. Every discovered vertex is reachable.
   */
  ghost predicate Scanned(g: Adjacency, s: Vertex, order: seq<Vertex>, pending: seq<Vertex>,
                          discovered: set<Vertex>, todo: set<Vertex>)
  {
    && discovered <= g.Keys && s in discovered
    && (forall v :: v in discovered <==> v in order || v in pending)
    && (forall v :: v in order ==> v !in pending)
    && Distinct(order) && Distinct(pending)
    && (order == [] ==> pending == [s] && todo == {})
    && (order != [] ==> order[0] == s)
    && (forall i :: 0 <= i < |order| ==>
          order[i] in g && g[order[i]] - (if i == |order| - 1 then todo else {}) <= discovered)
    && (forall v :: v in discovered ==> Reachable(g, s, v))
  }

  lemma ScanInit(g: Adjacency, s: Vertex)
    requires s in g
    ensures Scanned(g, s, [], [s], {s}, {})
  {
    ReachSelf(g, s);
  }

  /** Printing the vertex at index `k` of `pending` and taking it out. */
  lemma ScanPop(g: Adjacency, s: Vertex, order: seq<Vertex>, pending: seq<Vertex>, discovered: set<Vertex>, k: nat)
    requires Scanned(g, s, order, pending, discovered, {}) && k < |pending|
    ensures pending[k] in g
    ensures Scanned(g, s, order + [pending[k]], pending[..k] + pending[k + 1..], discovered, g[pending[k]])
  {
    var x := pending[k];
    var order', pending' := order + [x], pending[..k] + pending[k + 1..];
    forall v | v in pending' ensures v in pending && v != x {
      var j :| 0 <= j < |pending'| && pending'[j] == v;
      if j < k {
        assert pending[j] == v;
      } else {
        assert pending[j + 1] == v;
      }
    }
    forall v | v in pending && v != x ensures v in pending' {
      var j :| 0 <= j < |pending| && pending[j] == v;
      if j < k {
        assert pending'[j] == v;
      } else {
        assert pending'[j - 1] == v;
      }
    }
    forall i, j | 0 <= i < j < |pending'| ensures pending'[i] != pending'[j] {
      var i', j' := if i < k then i else i + 1, if j < k then j else j + 1;
      assert pending'[i] == pending[i'] && pending'[j] == pending[j'];
    }
    forall i | 0 <= i < |order'|
      ensures order'[i] in g && g[order'[i]] - (if i == |order'| - 1 then g[x] else {}) <= discovered
    {
      if i < |order| {
        assert order'[i] == order[i];
      }
    }
    assert x in discovered;
  }

  /** Handling neighbour `e` of the last printed vertex: discover and queue it unless already discovered. */
  lemma ScanEdge(g: Adjacency, s: Vertex, order: seq<Vertex>, pending: seq<Vertex>,
                 discovered: set<Vertex>, todo: set<Vertex>, e: Vertex)
    requires Closed(g) && Scanned(g, s, order, pending, discovered, todo) && e in todo
    requires order != [] && todo <= g[Last(order)]
    ensures e !in discovered ==> Scanned(g, s, order, pending + [e], discovered + {e}, todo - {e})
    ensures e in discovered ==> Scanned(g, s, order, pending, discovered, todo - {e})
  {
    var x := Last(order);
    assert order[|order| - 1] == x;
    if e !in discovered {
      ReachStep(g, s, x, e);
      var pending' := pending + [e];
      forall v | v in pending' ensures v in pending || v == e {
        var j :| 0 <= j < |pending'| && pending'[j] == v;
        if j < |pending| {
          assert pending[j] == v;
        }
      }
      forall i | 0 <= i < |order|
        ensures order[i] in g && g[order[i]] - (if i == |order| - 1 then todo - {e} else {}) <= discovered + {e}
      {
      }
    }
  }

  lemma ScanDone(g: Adjacency, s: Vertex, order: seq<Vertex>, discovered: set<Vertex>)
    requires Scanned(g, s, order, [], discovered, {})
    ensures VisitOrder(g, s, order)
  {
    forall v | v in discovered && v in g ensures g[v] <= discovered {
      var i :| 0 <= i < |order| && order[i] == v;
    }
    ClosedReachAll(g, discovered, s);
  }

  /**
   * The loop of `bft` and `dft` over the neighbours of the vertex just
   * printed: each one not yet discovered is discovered and added to the
   * queue or stack.
   */
  method Discover(g: Adjacency, s: Vertex, order: seq<Vertex>, pending: seq<Vertex>, discovered: set<Vertex>)
    returns (pending': seq<Vertex>, discovered': set<Vertex>)
    requires Closed(g) && order != [] && Last(order) in g
    requires Scanned(g, s, order, pending, discovered, g[Last(order)])
    ensures Scanned(g, s, order, pending', discovered', {})
    ensures discovered <= discovered' && (discovered' == discovered ==> pending' == pending)
  {
    pending', discovered' := pending, discovered;
    var todo := g[Last(order)];
    while todo != {}
      invariant Scanned(g, s, order, pending', discovered', todo) && todo <= g[Last(order)]
      invariant discovered <= discovered' && (discovered' == discovered ==> pending' == pending)
      decreases todo
    {
      var edge := Choose(todo);
      ScanEdge(g, s, order, pending', discovered', todo, edge);
      if edge !in discovered' {
        discovered' := discovered' + {edge};
        pending' := pending' + [edge];
      }
      todo := todo - {edge};
    }
  }

  /**
   * What `_dft_recursive(v, before)` leaves behind: `order`, printed in that
   * call, starts at `v`, repeats nothing and holds exactly the vertices the
   * call adds to `before`, all reachable from `v`. Each of them has all its
   * neighbours in `after`, except the members of `todo` for `v` itself.
   */
  ghost predicate Visited(g: Adjacency, v: Vertex, before: set<Vertex>, after: set<Vertex>,
                          order: seq<Vertex>, todo: set<Vertex>)
  {
    && after <= g.Keys && order != [] && order[0] == v && Distinct(order)
    && before <= after && (forall u :: u in after ==> u in before || u in order)
    && (forall u :: u in order ==> u in after && u !in before)
    && (forall u :: u in order ==> u in g && g[u] - (if u == v then todo else {}) <= after)
    && (forall u :: u in order ==> Reachable(g, v, u))
  }

  lemma VisitStart(g: Adjacency, v: Vertex, before: set<Vertex>)
    requires v in g && v !in before && before <= g.Keys
    ensures Visited(g, v, before, before + {v}, [v], g[v])
  {
    ReachSelf(g, v);
  }

  lemma VisitSkip(g: Adjacency, v: Vertex, before: set<Vertex>, after: set<Vertex>, order: seq<Vertex>,
                  todo: set<Vertex>, e: Vertex)
    requires Visited(g, v, before, after, order, todo) && e in after
    ensures Visited(g, v, before, after, order, todo - {e})
  {
  }

  /** Handing neighbour `e` of `v` to a recursive call, which printed `more` and left `after'` discovered. */
  lemma VisitInto(g: Adjacency, v: Vertex, before: set<Vertex>, after: set<Vertex>, order: seq<Vertex>,
                  todo: set<Vertex>, e: Vertex, after': set<Vertex>, more: seq<Vertex>)
    requires Visited(g, v, before, after, order, todo) && e in todo && todo <= g[v] && e !in after
    requires Visited(g, e, after, after', more, {})
    ensures Visited(g, v, before, after', order + more, todo - {e})
  {
    var all := order + more;
    assert e == more[0];
    forall u | u in after ensures u in after' {
    }
    forall i, j | 0 <= i < j < |all| ensures all[i] != all[j] {
      if j >= |order| && i < |order| {
        assert all[i] in order && all[j] in more;
      } else if i >= |order| {
        assert all[i] == more[i - |order|] && all[j] == more[j - |order|];
      }
    }
    forall u | u in all ensures Reachable(g, v, u) {
      if u in more {
        assert v in order;
        ReachStep(g, v, v, e);
        ReachTrans(g, v, e, u);
      }
    }
    assert e == more[0];
  }

  lemma VisitAll(g: Adjacency, s: Vertex, after: set<Vertex>, order: seq<Vertex>)
    requires Visited(g, s, {}, after, order, {})
    ensures VisitOrder(g, s, order)
  {
    ClosedReachAll(g, after, s);
  }

  /**
   * What `_dfs_recursive(path, t, before, prior)` leaves behind. The call
   * marks discovered its vertex `v`, the end of `path`, and everything it
   * reaches; each vertex it adds has all its neighbours discovered, except
   * the members of `todo` for `v` itself. When it adds `t`, `found` is
   * `prior` followed by a path from the start of `path` to `t`; otherwise
   * `found` is `prior`.
   */
  ghost predicate Probed(g: Adjacency, path: seq<Vertex>, t: Vertex, before: set<Vertex>, after: set<Vertex>,
                         found: seq<Vertex>, prior: seq<Vertex>, todo: set<Vertex>)
  {
    && path != [] && before + {Last(path)} <= after <= g.Keys
    && (forall u :: u in after && u !in before ==>
          u in g && g[u] - (if u == Last(path) then todo else {}) <= after)
    && (t in after && t !in before ==>
          |prior| <= |found| && found[..|prior|] == prior && PathFromTo(g, found[|prior|..], path[0], t))
    && ((t in after && t !in before) || found == prior)
  }

  lemma ProbeStart(g: Adjacency, path: seq<Vertex>, t: Vertex, before: set<Vertex>, prior: seq<Vertex>)
    requires IsPath(g, path) && Last(path) in g && Last(path) !in before && before <= g.Keys
    ensures Probed(g, path, t, before, before + {Last(path)},
                   if Last(path) == t then prior + path else prior, prior, g[Last(path)])
  {
    assert (prior + path)[..|prior|] == prior && (prior + path)[|prior|..] == path;
  }

  lemma ProbeSkip(g: Adjacency, path: seq<Vertex>, t: Vertex, before: set<Vertex>, after: set<Vertex>,
                  found: seq<Vertex>, prior: seq<Vertex>, todo: set<Vertex>, e: Vertex)
    requires Probed(g, path, t, before, after, found, prior, todo) && e in after
    ensures Probed(g, path, t, before, after, found, prior, todo - {e})
  {
  }

  /** Handing neighbour `e` of the end of `path` to a recursive call on `path + [e]`. */
  lemma ProbeInto(g: Adjacency, path: seq<Vertex>, t: Vertex, before: set<Vertex>, after: set<Vertex>,
                  found: seq<Vertex>, prior: seq<Vertex>, todo: set<Vertex>, e: Vertex,
                  after': set<Vertex>, found': seq<Vertex>)
    requires Probed(g, path, t, before, after, found, prior, todo) && e in todo && todo <= g[Last(path)]
    requires e !in after && Probed(g, path + [e], t, after, after', found', found, {})
    ensures Probed(g, path, t, before, after', found', prior, todo - {e})
  {
    assert Last(path + [e]) == e && (path + [e])[0] == path[0];
    if t in after' && t !in after {
      var q := found'[|found|..];
      assert found == prior;
      assert found'[..|prior|] == prior && found'[|prior|..] == q;
    }
  }

  lemma ProbeAll(g: Adjacency, s: Vertex, t: Vertex, after: set<Vertex>, found: seq<Vertex>)
    requires Probed(g, [s], t, {}, after, found, [], {})
    ensures found == [] <==> !Reachable(g, s, t)
    ensures found != [] ==> PathFromTo(g, found, s, t)
  {
    if t in after {
      assert found[0..] == found;
    } else {
      forall v | v in after && v in g ensures g[v] <= after {
        assert g[v] - (if v == s then {} else {}) <= after;
      }
      ClosedReachAll(g, after, s);
    }
  }

  /** The last vertex of each queued path. */
  function Ends(queue: seq<seq<Vertex>>): (r: seq<Vertex>)
    requires forall i :: 0 <= i < |queue| ==> queue[i] != []
    ensures |r| == |queue| && forall i :: 0 <= i < |queue| ==> r[i] == Last(queue[i])
  {
    if queue == [] then [] else [Last(queue[0])] + Ends(queue[1..])
  }

  lemma {:induction false} EndsPush(queue: seq<seq<Vertex>>, p: seq<Vertex>)
    requires (forall i :: 0 <= i < |queue| ==> queue[i] != []) && p != []
    ensures Ends(queue + [p]) == Ends(queue) + [Last(p)]
  {
    var queue' := queue + [p];
    var ends, ends' := Ends(queue), Ends(queue');
    var rest := ends + [Last(p)];
    forall i | 0 <= i < |rest| ensures ends'[i] == rest[i] {
      if i < |queue| {
        assert queue'[i] == queue[i];
      } else {
        assert queue'[i] == p;
      }
    }
  }

  lemma {:induction false} EndsRemove(queue: seq<seq<Vertex>>, k: nat)
    requires (forall i :: 0 <= i < |queue| ==> queue[i] != []) && k < |queue|
    ensures Ends(queue[..k] + queue[k + 1..]) == Ends(queue)[..k] + Ends(queue)[k + 1..]
  {
    var queue' := queue[..k] + queue[k + 1..];
    var ends, ends' := Ends(queue), Ends(queue');
    var rest := ends[..k] + ends[k + 1..];
    forall i | 0 <= i < |rest| ensures ends'[i] == rest[i] {
      if i < k {
        assert queue'[i] == queue[i];
      } else {
        assert queue'[i] == queue[i + 1];
      }
    }
  }

  /** Every queued path leads from `s`. */
  ghost predicate Rooted(g: Adjacency, s: Vertex, pending: seq<seq<Vertex>>)
  {
    forall i :: 0 <= i < |pending| ==> IsPath(g, pending[i]) && pending[i][0] == s
  }

  /** `discovered` holds exactly the dequeued vertices and the ends of queued paths, each once. */
  ghost predicate Tally(visited: set<Vertex>, ends: seq<Vertex>, discovered: set<Vertex>)
  {
    && visited <= discovered && (forall v :: v in discovered ==> v in visited || v in ends)
    && (forall v :: v in ends ==> v in discovered && v !in visited)
    && Distinct(ends)
  }

  /** Every dequeued vertex has all its neighbours discovered, except the members of `todo` for `x`. */
  ghost predicate Expanded(g: Adjacency, visited: set<Vertex>, discovered: set<Vertex>, x: Vertex, todo: set<Vertex>)
  {
    forall v :: v in visited ==> v in g && g[v] - (if v == x then todo else {}) <= discovered
  }

  /**
   * The state of `bfs` and `dfs` between steps: `visited` are the vertices
   * dequeued, `pending` the queue or stack of paths, `x` the vertex being
   * expanded and `todo` its neighbours not yet handled. The destination `t`
   * has not been dequeued.
   */
  ghost predicate Searching(g: Adjacency, s: Vertex, t: Vertex, visited: set<Vertex>, pending: seq<seq<Vertex>>,
                            discovered: set<Vertex>, x: Vertex, todo: set<Vertex>)
  {
    && discovered <= g.Keys && s in discovered && t !in visited
    && Rooted(g, s, pending)
    && Tally(visited, Ends(pending), discovered)
    && Expanded(g, visited, discovered, x, todo)
  }

  lemma SearchInit(g: Adjacency, s: Vertex, t: Vertex)
    requires s in g
    ensures Searching(g, s, t, {}, [[s]], {s}, s, {})
  {
    assert Ends([[s]])[0] == s;
  }

  lemma TallyPop(visited: set<Vertex>, ends: seq<Vertex>, discovered: set<Vertex>, k: nat)
    requires Tally(visited, ends, discovered) && k < |ends|
    ensures Tally(visited + {ends[k]}, ends[..k] + ends[k + 1..], discovered)
  {
    var y, ends' := ends[k], ends[..k] + ends[k + 1..];
    forall v | v in ends' ensures v in ends && v != y {
      var j :| 0 <= j < |ends'| && ends'[j] == v;
      assert ends[if j < k then j else j + 1] == v;
    }
    forall v | v in ends && v != y ensures v in ends' {
      var j :| 0 <= j < |ends| && ends[j] == v;
      assert ends'[if j < k then j else j - 1] == v;
    }
    forall i, j | 0 <= i < j < |ends'| ensures ends'[i] != ends'[j] {
      assert ends'[i] == ends[if i < k then i else i + 1] && ends'[j] == ends[if j < k then j else j + 1];
    }
  }

  lemma RootedPop(g: Adjacency, s: Vertex, pending: seq<seq<Vertex>>, k: nat)
    requires Rooted(g, s, pending) && k < |pending|
    ensures Rooted(g, s, pending[..k] + pending[k + 1..])
  {
    var rest := pending[..k] + pending[k + 1..];
    assert forall i :: 0 <= i < |rest| ==> rest[i] == pending[if i < k then i else i + 1];
  }

  lemma RootedPush(g: Adjacency, s: Vertex, pending: seq<seq<Vertex>>, p: seq<Vertex>)
    requires Rooted(g, s, pending) && IsPath(g, p) && p[0] == s
    ensures Rooted(g, s, pending + [p])
  {
    var pending' := pending + [p];
    assert forall i :: 0 <= i < |pending| ==> pending'[i] == pending[i];
  }

  lemma TallyPush(visited: set<Vertex>, ends: seq<Vertex>, discovered: set<Vertex>, e: Vertex)
    requires Tally(visited, ends, discovered) && e !in discovered
    ensures Tally(visited, ends + [e], discovered + {e})
  {
    var ends' := ends + [e];
    forall v | v in ends' ensures v in ends || v == e {
      var j :| 0 <= j < |ends'| && ends'[j] == v;
      if j < |ends| {
        assert ends[j] == v;
      }
    }
  }

  /** Taking the path at index `k` off the queue or stack; unless it ends at `t`, its end is now being expanded. */
  lemma SearchPop(g: Adjacency, s: Vertex, t: Vertex, visited: set<Vertex>, pending: seq<seq<Vertex>>,
                  discovered: set<Vertex>, x: Vertex, k: nat, rest: seq<seq<Vertex>>)
    requires Searching(g, s, t, visited, pending, discovered, x, {}) && k < |pending|
    requires rest == pending[..k] + pending[k + 1..]
    ensures PathFromTo(g, pending[k], s, Last(pending[k])) && Last(pending[k]) in g
    ensures var y := Last(pending[k]);
      y != t ==> Searching(g, s, t, visited + {y}, rest, discovered, y, g[y])
  {
    var y := Last(pending[k]);
    var ends := Ends(pending);
    assert ends[k] == y && y in discovered;
    EndsRemove(pending, k);
    TallyPop(visited, ends, discovered, k);
    RootedPop(g, s, pending, k);
    assert Expanded(g, visited + {y}, discovered, y, g[y]) by {
      forall v | v in visited ensures g[v] - (if v == x then {} else {}) <= discovered {
      }
    }
  }

  /** Handling neighbour `e` of the vertex `x` being expanded, reached by `path`. */
  lemma SearchEdge(g: Adjacency, s: Vertex, t: Vertex, visited: set<Vertex>, pending: seq<seq<Vertex>>,
                   discovered: set<Vertex>, x: Vertex, todo: set<Vertex>, path: seq<Vertex>, e: Vertex)
    requires Closed(g) && Searching(g, s, t, visited, pending, discovered, x, todo)
    requires PathFromTo(g, path, s, x) && x in g && e in todo && todo <= g[x]
    ensures e !in discovered ==> Searching(g, s, t, visited, pending + [path + [e]], discovered + {e}, x, todo - {e})
    ensures e in discovered ==> Searching(g, s, t, visited, pending, discovered, x, todo - {e})
  {
    if e !in discovered {
      PathExtend(g, path, s, x, e);
      RootedPush(g, s, pending, path + [e]);
      EndsPush(pending, path + [e]);
      TallyPush(visited, Ends(pending), discovered, e);
    }
  }

  lemma SearchDone(g: Adjacency, s: Vertex, t: Vertex, visited: set<Vertex>, discovered: set<Vertex>, x: Vertex)
    requires Searching(g, s, t, visited, [], discovered, x, {})
    ensures !Reachable(g, s, t)
  {
    assert Ends([]) == [];
    forall v | v in discovered ensures v in visited {
      assert v in visited || v in [];
    }
    forall v | v in visited && v in g ensures g[v] <= visited {
      assert g[v] - (if v == x then {} else {}) <= discovered;
    }
    ClosedReachAll(g, visited, s);
  }

  /**
   * The breadth-first shape of the queue of `bfs`: paths of `level` or
   * `level + 1` vertices, shortest first, each a shortest path to its end;
   * every vertex with a path of fewer than `level` vertices is dequeued.
   */
  ghost predicate Layered(g: Adjacency, s: Vertex, visited: set<Vertex>, queue: seq<seq<Vertex>>, level: nat)
  {
    && (forall i :: 0 <= i < |queue| ==>
          level <= |queue[i]| <= level + 1 && queue[i] != [] && Shortest(g, queue[i], s, Last(queue[i])))
    && (forall i, j :: 0 <= i <= j < |queue| ==> |queue[i]| <= |queue[j]|)
    && (forall w, p :: PathFromTo(g, p, s, w) && |p| < level ==> w in visited)
  }

  lemma LayerInit(g: Adjacency, s: Vertex)
    ensures Layered(g, s, {}, [[s]], 1)
  {
    forall q | PathFromTo(g, q, s, s) ensures 1 <= |q| {
    }
  }

  lemma LayerPop(g: Adjacency, s: Vertex, visited: set<Vertex>, queue: seq<seq<Vertex>>, level: nat, y: Vertex)
    requires Layered(g, s, visited, queue, level) && queue != []
    ensures Shortest(g, queue[0], s, Last(queue[0]))
    ensures Layered(g, s, visited + {y}, queue[1..], level)
  {
  }

  /** Removing the element at index 0 leaves the tail. */
  lemma DropHead(q: seq<seq<Vertex>>)
    requires q != []
    ensures q[..0] + q[1..] == q[1..]
  {
  }

  /** `SearchPop` at the head of the queue. */
  lemma SearchHead(g: Adjacency, s: Vertex, t: Vertex, visited: set<Vertex>, queue: seq<seq<Vertex>>,
                   discovered: set<Vertex>, x: Vertex)
    requires Searching(g, s, t, visited, queue, discovered, x, {}) && queue != []
    ensures PathFromTo(g, queue[0], s, Last(queue[0])) && Last(queue[0]) in g
    ensures var y := Last(queue[0]);
      y != t ==> Searching(g, s, t, visited + {y}, queue[1..], discovered, y, g[y])
  {
    DropHead(queue);
    SearchPop(g, s, t, visited, queue, discovered, x, 0, queue[1..]);
  }

  /** Dequeuing the head of the queue of `bfs`: a shortest path to its end, which is then expanded unless it is `t`. */
  lemma LevelPop(g: Adjacency, s: Vertex, t: Vertex, visited: set<Vertex>, queue: seq<seq<Vertex>>,
                 discovered: set<Vertex>, x: Vertex, level: nat)
    requires Searching(g, s, t, visited, queue, discovered, x, {}) && Layered(g, s, visited, queue, level)
    requires queue != [] && |queue[0]| == level
    ensures Shortest(g, queue[0], s, Last(queue[0])) && Last(queue[0]) in g
    ensures Last(queue[0]) == t ==> Reachable(g, s, t)
    ensures var y := Last(queue[0]);
      y != t ==> && Searching(g, s, t, visited + {y}, queue[1..], discovered, y, g[y])
                 && Layered(g, s, visited + {y}, queue[1..], level)
  {
    var y := Last(queue[0]);
    SearchHead(g, s, t, visited, queue, discovered, x);
    LayerPop(g, s, visited, queue, level, y);
    if y == t {
      assert PathFromTo(g, queue[0], s, t);
    }
  }

  /**
   * A path of no more than `level` vertices to a vertex `e` other than `s`
   * passes last through a dequeued vertex, on a path shorter than `level`.
   */
  lemma Predecessor(g: Adjacency, s: Vertex, visited: set<Vertex>, queue: seq<seq<Vertex>>, level: nat,
                    q: seq<Vertex>, e: Vertex)
    requires Layered(g, s, visited, queue, level) && PathFromTo(g, q, s, e) && e != s
    ensures |q| >= 2
    ensures |q| <= level ==> && q[|q| - 2] in visited && q[|q| - 2] in g && e in g[q[|q| - 2]]
                             && PathFromTo(g, q[..|q| - 1], s, q[|q| - 2]) && |q| - 1 < level
  {
    PathBack(g, q, s, e);
  }

  /**
   * Extending a shortest path of `level` vertices to `x` by an undiscovered
   * neighbour `e` gives a shortest path to `e`: a shorter one would pass
   * last through a dequeued vertex, whose neighbours are all discovered,
   * or through `x` on a path shorter than `path`.
   */
  lemma NextShortest(g: Adjacency, s: Vertex, visited: set<Vertex>, queue: seq<seq<Vertex>>, discovered: set<Vertex>,
                     x: Vertex, todo: set<Vertex>, path: seq<Vertex>, e: Vertex, level: nat)
    requires Expanded(g, visited, discovered, x, todo) && Layered(g, s, visited, queue, level)
    requires Shortest(g, path, s, x) && |path| == level && x in g
    requires e in todo && todo <= g[x] && e !in discovered && s in discovered
    ensures Shortest(g, path + [e], s, e)
  {
    PathExtend(g, path, s, x, e);
    forall q | PathFromTo(g, q, s, e) ensures |path| + 1 <= |q| {
      Predecessor(g, s, visited, queue, level, q, e);
      assert q[|q| - 2] == x ==> |path| <= |q[..|q| - 1]|;
    }
  }

  /** Queueing `path + [e]` for an undiscovered neighbour `e` of `x`, reached by the shortest `path`. */
  lemma LayerEdge(g: Adjacency, s: Vertex, t: Vertex, visited: set<Vertex>, queue: seq<seq<Vertex>>,
                  discovered: set<Vertex>, x: Vertex, todo: set<Vertex>, path: seq<Vertex>, e: Vertex, level: nat)
    requires Searching(g, s, t, visited, queue, discovered, x, todo) && Layered(g, s, visited, queue, level)
    requires Shortest(g, path, s, x) && |path| == level && x in visited && x in g
    requires e in todo && todo <= g[x] && e !in discovered
    ensures Layered(g, s, visited, queue + [path + [e]], level)
  {
    var next := path + [e];
    NextShortest(g, s, visited, queue, discovered, x, todo, path, e, level);
    var queue' := queue + [next];
    forall i | 0 <= i < |queue'|
      ensures level <= |queue'[i]| <= level + 1 && queue'[i] != [] && Shortest(g, queue'[i], s, Last(queue'[i]))
    {
      if i < |queue| {
        assert queue'[i] == queue[i];
      }
    }
    forall i, j | 0 <= i <= j < |queue'| ensures |queue'[i]| <= |queue'[j]| {
      if j < |queue| {
        assert queue'[i] == queue[i] && queue'[j] == queue[j];
      } else if i < |queue| {
        assert queue'[i] == queue[i];
      }
    }
  }

  /** When the head of the queue has `level + 1` vertices, so does every queued path: the next level begins. */
  lemma LayerRebase(g: Adjacency, s: Vertex, t: Vertex, visited: set<Vertex>, queue: seq<seq<Vertex>>,
                    discovered: set<Vertex>, x: Vertex, level: nat)
    requires Searching(g, s, t, visited, queue, discovered, x, {}) && Layered(g, s, visited, queue, level)
    requires queue != [] && |queue[0]| == level + 1
    ensures Layered(g, s, visited, queue, level + 1)
  {
    forall w, p | PathFromTo(g, p, s, w) && |p| < level + 1 ensures w in visited {
      if |p| == level {
        if |p| >= 2 {
          PathBack(g, p, s, w);
          assert g[p[|p| - 2]] - (if p[|p| - 2] == x then {} else {}) <= discovered;
        }
        var ends := Ends(queue);
        assert w in discovered;
        assert forall i :: 0 <= i < |ends| && ends[i] == w ==> |queue[0]| <= |queue[i]| <= |p|;
        assert w !in ends;
      }
    }
  }

  /** The loop of `bfs` over the neighbours of the end of `path`: each one not yet discovered is queued. */
  method Enqueue(g: Adjacency, s: Vertex, t: Vertex, ghost visited: set<Vertex>, queue: seq<seq<Vertex>>,
                 discovered: set<Vertex>, path: seq<Vertex>, ghost level: nat)
    returns (queue': seq<seq<Vertex>>, discovered': set<Vertex>)
    requires Closed(g) && path != [] && Last(path) in g && Last(path) in visited
    requires Searching(g, s, t, visited, queue, discovered, Last(path), g[Last(path)])
    requires Layered(g, s, visited, queue, level) && Shortest(g, path, s, Last(path)) && |path| == level
    ensures Searching(g, s, t, visited, queue', discovered', Last(path), {})
    ensures Layered(g, s, visited, queue', level)
  {
    var vertex := path[|path| - 1];
    queue', discovered' := queue, discovered;
    var todo := g[vertex];
    while todo != {}
      invariant Searching(g, s, t, visited, queue', discovered', vertex, todo) && todo <= g[vertex]
      invariant Layered(g, s, visited, queue', level)
      decreases todo
    {
      var edge := Choose(todo);
      SearchEdge(g, s, t, visited, queue', discovered', vertex, todo, path, edge);
      if edge !in discovered' {
        LayerEdge(g, s, t, visited, queue', discovered', vertex, todo, path, edge, level);
        discovered' := discovered' + {edge};
        queue' := queue' + [path + [edge]];
      }
      todo := todo - {edge};
    }
  }

  /** The loop of `dfs` over the neighbours of the end of `path`: each one not yet discovered is pushed. */
  method Push(g: Adjacency, s: Vertex, t: Vertex, ghost visited: set<Vertex>, stack: seq<seq<Vertex>>,
              discovered: set<Vertex>, path: seq<Vertex>)
    returns (stack': seq<seq<Vertex>>, discovered': set<Vertex>)
    requires Closed(g) && path != [] && Last(path) in g && PathFromTo(g, path, s, Last(path))
    requires Searching(g, s, t, visited, stack, discovered, Last(path), g[Last(path)])
    ensures Searching(g, s, t, visited, stack', discovered', Last(path), {})
  {
    var vertex := path[|path| - 1];
    stack', discovered' := stack, discovered;
    var todo := g[vertex];
    while todo != {}
      invariant Searching(g, s, t, visited, stack', discovered', vertex, todo) && todo <= g[vertex]
      decreases todo
    {
      var edge := Choose(todo);
      SearchEdge(g, s, t, visited, stack', discovered', vertex, todo, path, edge);
      if edge !in discovered' {
        discovered' := discovered' + {edge};
        stack' := stack' + [path + [edge]];
      }
      todo := todo - {edge};
    }
  }

  /** The loop of `_dfs_recursive` that appends each vertex of `path` to `end_path`, in order. */
  method Append(endPath: seq<Vertex>, path: seq<Vertex>) returns (r: seq<Vertex>)
    ensures |r| == |endPath| + |path|
    ensures r[..|endPath|] == endPath && r[|endPath|..] == path
  {
    r := endPath;
    var k := 0;
    while k < |path|
      invariant 0 <= k <= |path| && r == endPath + path[..k]
    {
      r := r + [path[k]];
      k := k + 1;
      assert path[..k] == path[..k - 1] + [path[k - 1]];
    }
    assert path[..k] == path;
  }

  class Graph {
    /** The adjacency map: each vertex and the set of its neighbours. */
    var vertices: Adjacency

    ghost predicate Valid()
      reads this
    {
      Closed(vertices)
    }

    constructor ()
      ensures vertices == map[] && Valid()
    {
      vertices := map[];
    }

    /** `add_vertex`. */
    method AddVertex(v: Vertex)
      modifies this
      ensures vertices == WithVertex(old(vertices), v)
      ensures old(Valid()) ==> Valid()
    {
      if Valid() {
        WithVertexClosed(vertices, v);
      }
      if v !in vertices {
        vertices := vertices[v := {}];
      }
    }

    /** `add_edge`: the exceptions it raises are the `Missing` outcomes. */
    method AddEdge(v1: Vertex, v2: Vertex) returns (r: Outcome<()>)
      modifies this
      ensures Connect(old(vertices), v1, v2).Missing? ==>
                r == Missing(Connect(old(vertices), v1, v2).vertex) && vertices == old(vertices)
      ensures Connect(old(vertices), v1, v2).Ok? ==>
                r == Ok(()) && vertices == Connect(old(vertices), v1, v2).value
      ensures old(Valid()) ==> Valid()
    {
      if v1 !in vertices {
        return Missing(v1);
      }
      if v2 !in vertices {
        return Missing(v2);
      }
      if Valid() {
        ConnectClosed(vertices, v1, v2);
      }
      vertices := vertices[v1 := vertices[v1] + {v2}];
      return Ok(());
    }

    /** `get_neighbors`: `None` for a vertex that is not in the graph. */
    function GetNeighbors(v: Vertex): (r: Option<set<Vertex>>)
      reads this
      ensures r == None <==> v !in vertices
      ensures r.Some? ==> r.value == vertices[v]
    {
      if v in vertices then Some(vertices[v]) else None
    }

    /**
     * `bft`: breadth-first, with a queue, printing each vertex as it is
     * dequeued. Returns the vertices in the order printed; a start that is
     * not in the graph makes the first `get_neighbors` return `None`, and
     * iterating it raises.
     */
    method Bft(start: Vertex) returns (r: Outcome<seq<Vertex>>)
      requires Valid()
      ensures r.Missing? <==> start !in vertices
      ensures r.Missing? ==> r.vertex == start
      ensures r.Ok? ==> VisitOrder(vertices, start, r.value)
    {
      var g := vertices;
      if start !in g {
        return Missing(start);
      }
      var queue := [start];
      var discovered := {start};
      var order := [];
      ScanInit(g, start);
      while |queue| != 0
        invariant Scanned(g, start, order, queue, discovered, {})
        decreases g.Keys - discovered, |queue|
      {
        ScanPop(g, start, order, queue, discovered, 0);
        assert queue[..0] + queue[1..] == queue[1..];
        var vertex := queue[0];
        queue := queue[1..];
        order := order + [vertex];
        queue, discovered := Discover(g, start, order, queue, discovered);
      }
      ScanDone(g, start, order, discovered);
      return Ok(order);
    }

    /** `dft`: as `bft`, with a stack in place of the queue. */
    method Dft(start: Vertex) returns (r: Outcome<seq<Vertex>>)
      requires Valid()
      ensures r.Missing? <==> start !in vertices
      ensures r.Missing? ==> r.vertex == start
      ensures r.Ok? ==> VisitOrder(vertices, start, r.value)
    {
      var g := vertices;
      if start !in g {
        return Missing(start);
      }
      var stack := [start];
      var discovered := {start};
      var order := [];
      ScanInit(g, start);
      while |stack| != 0
        invariant Scanned(g, start, order, stack, discovered, {})
        decreases g.Keys - discovered, |stack|
      {
        ScanPop(g, start, order, stack, discovered, |stack| - 1);
        assert stack[..|stack| - 1] + stack[|stack|..] == stack[..|stack| - 1];
        var vertex := stack[|stack| - 1];
        stack := stack[..|stack| - 1];
        order := order + [vertex];
        stack, discovered := Discover(g, start, order, stack, discovered);
      }
      ScanDone(g, start, order, discovered);
      return Ok(order);
    }

    /** `_dft_recursive`: prints `vertex`, then recurses into each neighbour not yet discovered. */
    method DftFrom(vertex: Vertex, discovered: set<Vertex>) returns (discovered': set<Vertex>, order: seq<Vertex>)
      requires Valid() && vertex in vertices && vertex !in discovered && discovered <= vertices.Keys
      ensures Visited(vertices, vertex, discovered, discovered', order, {})
      decreases vertices.Keys - discovered
    {
      order := [vertex];
      discovered' := discovered + {vertex};
      VisitStart(vertices, vertex, discovered);
      var todo := vertices[vertex];
      while todo != {}
        invariant Visited(vertices, vertex, discovered, discovered', order, todo) && todo <= vertices[vertex]
        invariant discovered + {vertex} <= discovered'
        decreases todo
      {
        var edge := Choose(todo);
        if edge !in discovered' {
          var more;
          var after;
          after, more := DftFrom(edge, discovered');
          VisitInto(vertices, vertex, discovered, discovered', order, todo, edge, after, more);
          discovered', order := after, order + more;
        } else {
          VisitSkip(vertices, vertex, discovered, discovered', order, todo, edge);
        }
        todo := todo - {edge};
      }
    }

    /** `dft_recursive`: `_dft_recursive` from the start with nothing discovered. */
    method DftRecursive(start: Vertex) returns (r: Outcome<seq<Vertex>>)
      requires Valid()
      ensures r.Missing? <==> start !in vertices
      ensures r.Missing? ==> r.vertex == start
      ensures r.Ok? ==> VisitOrder(vertices, start, r.value)
    {
      if start !in vertices {
        return Missing(start);
      }
      var discovered, order := DftFrom(start, {});
      VisitAll(vertices, start, discovered, order);
      return Ok(order);
    }

    /**
     * `bfs`: breadth-first over paths. Returns a shortest path from `start`
     * to `dest`, or `None` once the queue runs dry. A start that is not in
     * the graph is returned as the path when it is the destination, and
     * otherwise makes iterating its `get_neighbors` raise.
     */
    method Bfs(start: Vertex, dest: Vertex) returns (r: Outcome<Option<seq<Vertex>>>)
      requires Valid()
      ensures r.Missing? <==> start !in vertices && start != dest
      ensures r.Missing? ==> r.vertex == start
      ensures r.Ok? ==> (r.value.None? <==> !Reachable(vertices, start, dest))
      ensures r.Ok? && r.value.Some? ==> Shortest(vertices, r.value.value, start, dest)
    {
      var g := vertices;
      if start !in g {
        if start == dest {
          ReachSelf(g, start);
          forall q | PathFromTo(g, q, start, start) ensures 1 <= |q| {
          }
          return Ok(Some([start]));
        }
        return Missing(start);
      }
      var queue := [[start]];
      var discovered := {start};
      ghost var visited: set<Vertex> := {};
      ghost var x := start;
      ghost var level := 1;
      SearchInit(g, start, dest);
      LayerInit(g, start);
      while |queue| != 0
        invariant Searching(g, start, dest, visited, queue, discovered, x, {})
        invariant Layered(g, start, visited, queue, level) && (queue != [] ==> |queue[0]| == level)
        decreases g.Keys - visited
      {
        LevelPop(g, start, dest, visited, queue, discovered, x, level);
        var path := queue[0];
        queue := queue[1..];
        var vertex := path[|path| - 1];
        if vertex == dest {
          return Ok(Some(path));
        }
        visited, x := visited + {vertex}, vertex;
        queue, discovered := Enqueue(g, start, dest, visited, queue, discovered, path, level);
        if queue != [] && |queue[0]| != level {
          LayerRebase(g, start, dest, visited, queue, discovered, x, level);
          level := level + 1;
        }
      }
      SearchDone(g, start, dest, visited, discovered, x);
      return Ok(None);
    }

    /** `dfs`: as `bfs`, with a stack in place of the queue; the path returned need not be shortest. */
    method Dfs(start: Vertex, dest: Vertex) returns (r: Outcome<Option<seq<Vertex>>>)
      requires Valid()
      ensures r.Missing? <==> start !in vertices && start != dest
      ensures r.Missing? ==> r.vertex == start
      ensures r.Ok? ==> (r.value.None? <==> !Reachable(vertices, start, dest))
      ensures r.Ok? && r.value.Some? ==> PathFromTo(vertices, r.value.value, start, dest)
    {
      var g := vertices;
      if start !in g {
        if start == dest {
          ReachSelf(g, start);
          return Ok(Some([start]));
        }
        return Missing(start);
      }
      var stack := [[start]];
      var discovered := {start};
      ghost var visited: set<Vertex> := {};
      ghost var x := start;
      SearchInit(g, start, dest);
      while |stack| != 0
        invariant Searching(g, start, dest, visited, stack, discovered, x, {})
        decreases g.Keys - visited
      {
        var k := |stack| - 1;
        assert stack[..k] + stack[k + 1..] == stack[..k];
        SearchPop(g, start, dest, visited, stack, discovered, x, k, stack[..k]);
        var path := stack[k];
        stack := stack[..k];
        var vertex := path[|path| - 1];
        if vertex == dest {
          return Ok(Some(path));
        }
        visited, x := visited + {vertex}, vertex;
        stack, discovered := Push(g, start, dest, visited, stack, discovered, path);
      }
      SearchDone(g, start, dest, visited, discovered, x);
      return Ok(None);
    }

    /**
     * `_dfs_recursive`: marks the end of `path` discovered, appends `path`
     * to `end_path` when it ends at `dest`, then recurses on `path` extended
     * by each neighbour not yet discovered.
     */
    method DfsFrom(path: seq<Vertex>, dest: Vertex, discovered: set<Vertex>, endPath: seq<Vertex>)
      returns (discovered': set<Vertex>, endPath': seq<Vertex>)
      requires Valid() && IsPath(vertices, path) && Last(path) in vertices
      requires Last(path) !in discovered && discovered <= vertices.Keys
      ensures Probed(vertices, path, dest, discovered, discovered', endPath', endPath, {})
      decreases vertices.Keys - discovered
    {
      var vertex := path[|path| - 1];
      endPath' := endPath;
      if vertex == dest {
        endPath' := Append(endPath', path);
      }
      discovered' := discovered + {vertex};
      ProbeStart(vertices, path, dest, discovered, endPath);
      var todo := vertices[vertex];
      while todo != {}
        invariant Probed(vertices, path, dest, discovered, discovered', endPath', endPath, todo)
        invariant todo <= vertices[vertex]
        decreases todo
      {
        var edge := Choose(todo);
        if edge !in discovered' {
          PathExtend(vertices, path, path[0], vertex, edge);
          var after, found := DfsFrom(path + [edge], dest, discovered', endPath');
          ProbeInto(vertices, path, dest, discovered, discovered', endPath', endPath, todo, edge, after, found);
          discovered', endPath' := after, found;
        } else {
          ProbeSkip(vertices, path, dest, discovered, discovered', endPath', endPath, todo, edge);
        }
        todo := todo - {edge};
      }
    }

    /**
     * `dfs_recursive`: the path `_dfs_recursive` collects from the start,
     * empty when the destination is unreachable. A start that is not in the
     * graph makes iterating its `get_neighbors` raise, even when it is the
     * destination.
     */
    method DfsRecursive(start: Vertex, dest: Vertex) returns (r: Outcome<seq<Vertex>>)
      requires Valid()
      ensures r.Missing? <==> start !in vertices
      ensures r.Missing? ==> r.vertex == start
      ensures r.Ok? ==> (r.value == [] <==> !Reachable(vertices, start, dest))
      ensures r.Ok? && r.value != [] ==> PathFromTo(vertices, r.value, start, dest)
    {
      if start !in vertices {
        return Missing(start);
      }
      var discovered, endPath := DfsFrom([start], dest, {}, []);
      ProbeAll(vertices, start, dest, discovered, endPath);
      return Ok(endPath);
    }
  }
}
