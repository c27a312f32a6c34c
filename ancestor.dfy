/**
 * `FamilyTree` and `earliest_ancestor` of projects/ancestor/ancestor.py:
 * a map from each child to the set of its recorded parents, the chains of
 * parents that lead from a person to someone without recorded parents, and
 * the choice of the farthest such ancestor.
 */
module Ancestry {
  import opened Sets

  type Person = int

  /** Each child mapped to the set of its recorded parents. */
  type Parents = map<Person, set<Person>>

  function Last(p: seq<Person>): Person
    requires p != []
  {
    p[|p| - 1]
  }

  /** `add_connection`: `parent` joins the parents of `child`, which gets an entry if it had none. */
  function Link(m: Parents, child: Person, parent: Person): (r: Parents)
    ensures r.Keys == m.Keys + {child}
    ensures parent in r[child] && r[child] - {parent} == (if child in m then m[child] else {}) - {parent}
    ensures forall c :: c in m && c != child ==> r[c] == m[c]
  {
    if child !in m then m[child := {parent}] else m[child := m[child] + {parent}]
  }

  /** The map `FamilyTree(data)` builds: `add_connection(child, parent)` for each `(parent, child)`, in order. */
  function Tree(data: seq<(Person, Person)>): Parents
  {
    if data == [] then map[] else Link(Tree(data[..|data| - 1]), data[|data| - 1].1, data[|data| - 1].0)
  }

  /** `c` is the child of some pair of `data`. */
  ghost predicate IsChild(data: seq<(Person, Person)>, c: Person)
  {
    exists i :: 0 <= i < |data| && data[i].1 == c
  }

  /** `p` is recorded as a parent of `c` by some pair of `data`. */
  ghost predicate IsParentOf(data: seq<(Person, Person)>, p: Person, c: Person)
  {
    exists i :: 0 <= i < |data| && data[i].0 == p && data[i].1 == c
  }

  /** The tree has an entry for exactly the children of `data`, listing exactly the parents paired with each. */
  lemma {:induction false} TreeContents(data: seq<(Person, Person)>)
    ensures forall c :: c in Tree(data) <==> IsChild(data, c)
    ensures forall c, p :: c in Tree(data) ==> (p in Tree(data)[c] <==> IsParentOf(data, p, c))
  {
    if data != [] {
      var n := |data| - 1;
      var front := data[..n];
      TreeContents(front);
      forall c ensures IsChild(data, c) <==> IsChild(front, c) || c == data[n].1 {
        if IsChild(data, c) {
          var i :| 0 <= i < |data| && data[i].1 == c;
          if i < n {
            assert front[i] == data[i];
          }
        }
        if IsChild(front, c) {
          var i :| 0 <= i < |front| && front[i].1 == c;
          assert data[i] == front[i];
        }
      }
      forall c, p ensures IsParentOf(data, p, c) <==> IsParentOf(front, p, c) || (p, c) == (data[n].0, data[n].1) {
        if IsParentOf(data, p, c) {
          var i :| 0 <= i < |data| && data[i].0 == p && data[i].1 == c;
          if i < n {
            assert front[i] == data[i];
          }
        }
        if IsParentOf(front, p, c) {
          var i :| 0 <= i < |front| && front[i].0 == p && front[i].1 == c;
          assert data[i] == front[i];
        }
      }
    }
  }

  /** Every entry lists at least one parent. */
  ghost predicate Populated(m: Parents)
  {
    forall c :: c in m ==> m[c] != {}
  }

  /** Parents outrank nobody: each has a smaller rank than its child, so no one is their own ancestor. */
  ghost predicate Ranked(m: Parents, rank: Person -> nat)
  {
    forall c, p :: c in m && p in m[c] ==> rank(p) < rank(c)
  }

  /** `p` starts at `c` and each next person is a recorded parent of the one before. */
  ghost predicate Chain(m: Parents, c: Person, p: seq<Person>)
  {
    && p != [] && p[0] == c
    && forall k :: 0 <= k < |p| - 1 ==> p[k] in m && p[k + 1] in m[p[k]]
  }

  /** A chain of parents from `c` that ends at someone without recorded parents. */
  ghost predicate Lineage(m: Parents, c: Person, p: seq<Person>)
  {
    Chain(m, c, p) && Last(p) !in m
  }

  lemma ChainExtend(m: Parents, c: Person, p: seq<Person>, e: Person)
    requires Chain(m, c, p) && Last(p) in m && e in m[Last(p)]
    ensures Chain(m, c, p + [e])
  {
    var q := p + [e];
    forall k | 0 <= k < |q| - 1 ensures q[k] in m && q[k + 1] in m[q[k]] {
      if k < |p| - 1 {
        assert q[k] == p[k] && q[k + 1] == p[k + 1];
      }
    }
  }

  /** `b` raised to the power `n`. */
  ghost function Power(b: nat, n: nat): (r: nat)
    ensures b >= 1 ==> r >= 1
  {
    if n == 0 then 1 else b * Power(b, n - 1)
  }

  lemma {:induction false} PowerMono(b: nat, i: nat, j: nat)
    requires b >= 1 && i <= j
    ensures Power(b, i) <= Power(b, j)
    decreases j
  {
    if i < j {
      PowerMono(b, i, j - 1);
      Grow(b, Power(b, j - 1));
    }
  }

  lemma Grow(b: nat, x: nat)
    requires b >= 1
    ensures x <= b * x
  {
  }

  /** Someone with a recorded parent, who ranks lower, ranks above 0. */
  lemma RankPositive(m: Parents, rank: Person -> nat, c: Person)
    requires Ranked(m, rank) && c in m && m[c] != {}
    ensures rank(c) >= 1
  {
    if forall p :: p !in m[c] {
      assert false;
    }
    var p :| p in m[c];
    assert rank(p) < rank(c);
  }

  /** Everyone recorded as a parent. */
  ghost function Everyone(m: Parents): set<Person>
  {
    set c, p | c in m && p in m[c] :: p
  }

  lemma Degree(m: Parents, c: Person)
    requires c in m
    ensures |m[c]| < |Everyone(m)| + 1
  {
    var all := Everyone(m);
    forall p | p in m[c] ensures p in all {
    }
    assert all == m[c] + (all - m[c]);
  }

  /**
   * The termination measure of `find_all_paths`: each queued path weighs
   * `d` to the power of the rank of its end. Expanding a path replaces it
   * with fewer than `d` paths whose ends have smaller ranks.
   */
  ghost function ChainWeight(queue: seq<seq<Person>>, rank: Person -> nat, d: nat): nat
  {
    if queue == [] then 0
    else (if queue[0] == [] then 0 else Power(d, rank(Last(queue[0])))) + ChainWeight(queue[1..], rank, d)
  }

  lemma {:induction false} WeightPush(queue: seq<seq<Person>>, p: seq<Person>, rank: Person -> nat, d: nat)
    requires p != []
    ensures ChainWeight(queue + [p], rank, d) == ChainWeight(queue, rank, d) + Power(d, rank(Last(p)))
    decreases |queue|
  {
    if queue == [] {
      assert ChainWeight([p], rank, d) == Power(d, rank(Last(p))) + ChainWeight([], rank, d);
    } else {
      WeightPush(queue[1..], p, rank, d);
      assert (queue + [p])[1..] == queue[1..] + [p];
    }
  }

  /**
   * The state of `find_all_paths` between steps: every queued path is a
   * chain from `child`, every collected path a lineage, and every lineage
   * is collected, has a prefix in the queue, or extends `path` by a member
   * of `todo`; the queue, the result and `todo` are not all empty.
   */
  ghost predicate Enumerating(m: Parents, child: Person, queue: seq<seq<Person>>, all: seq<seq<Person>>,
                              path: seq<Person>, todo: set<Person>)
  {
    && (forall i :: 0 <= i < |queue| ==> Chain(m, child, queue[i]))
    && (forall i :: 0 <= i < |all| ==> Lineage(m, child, all[i]))
    && (queue != [] || all != [] || todo != {})
    && (forall p :: Lineage(m, child, p) ==>
          || p in all
          || (exists k :: 1 <= k <= |p| && p[..k] in queue)
          || (|path| < |p| && p[..|path|] == path && p[|path|] in todo))
  }

  lemma EnumerateInit(m: Parents, child: Person)
    ensures Enumerating(m, child, [[child]], [], [], {})
  {
    forall p | Lineage(m, child, p) ensures p[..1] in [[child]] {
      assert p[..1] == [child];
    }
  }

  /** Dequeuing the head: collected when it ends without parents, otherwise its end's parents are to be handled. */
  lemma EnumeratePop(m: Parents, child: Person, queue: seq<seq<Person>>, all: seq<seq<Person>>, x: seq<Person>)
    requires Populated(m) && Enumerating(m, child, queue, all, x, {}) && queue != []
    ensures queue[0] != [] && Chain(m, child, queue[0])
    ensures var path := queue[0];
      && (Last(path) !in m ==> Enumerating(m, child, queue[1..], all + [path], path, {}))
      && (Last(path) in m ==> Enumerating(m, child, queue[1..], all, path, m[Last(path)]))
  {
    var path, rest := queue[0], queue[1..];
    assert Chain(m, child, path);
    var todo := if Last(path) in m then m[Last(path)] else {};
    var all' := if Last(path) in m then all else all + [path];
    forall i | 0 <= i < |rest| ensures Chain(m, child, rest[i]) {
      assert rest[i] == queue[i + 1];
    }
    forall i | 0 <= i < |all'| ensures Lineage(m, child, all'[i]) {
      if i < |all| {
        assert all'[i] == all[i];
      }
    }
    forall p | Lineage(m, child, p)
      ensures || p in all'
              || (exists k :: 1 <= k <= |p| && p[..k] in rest)
              || (|path| < |p| && p[..|path|] == path && p[|path|] in todo)
    {
      if p !in all {
        var k :| 1 <= k <= |p| && p[..k] in queue;
        var j :| 0 <= j < |queue| && queue[j] == p[..k];
        if j == 0 {
          assert p[k - 1] == Last(path);
          if k == |p| {
            assert p == path;
          }
        } else {
          assert rest[j - 1] == p[..k];
        }
      }
    }
  }

  /** Handling parent `e` of the end of `path`: `path + [e]` joins the queue. */
  lemma EnumerateEdge(m: Parents, child: Person, queue: seq<seq<Person>>, all: seq<seq<Person>>,
                      path: seq<Person>, todo: set<Person>, e: Person)
    requires Enumerating(m, child, queue, all, path, todo) && Chain(m, child, path)
    requires Last(path) in m && todo <= m[Last(path)] && e in todo
    ensures Enumerating(m, child, queue + [path + [e]], all, path, todo - {e})
  {
    var next := path + [e];
    var queue' := queue + [next];
    ChainExtend(m, child, path, e);
    forall i | 0 <= i < |queue'| ensures Chain(m, child, queue'[i]) {
      if i < |queue| {
        assert queue'[i] == queue[i];
      }
    }
    forall p | Lineage(m, child, p)
      ensures || p in all
              || (exists k :: 1 <= k <= |p| && p[..k] in queue')
              || (|path| < |p| && p[..|path|] == path && p[|path|] in todo - {e})
    {
      if p !in all {
        if k :| 1 <= k <= |p| && p[..k] in queue {
          assert p[..k] in queue';
        } else if |path| < |p| && p[..|path|] == path && p[|path|] == e {
          assert p[..|path| + 1] == next;
        }
      }
    }
  }

  lemma EnumerateDone(m: Parents, child: Person, all: seq<seq<Person>>, path: seq<Person>)
    requires Enumerating(m, child, [], all, path, {})
    ensures all != [] && forall p :: Lineage(m, child, p) ==> p in all
  {
  }

  /** The paths of `paths` are all non-empty and the one at index `i` is the one `find_longest_path` keeps. */
  ghost predicate Longest(paths: seq<seq<Person>>, i: int)
    requires forall j :: 0 <= j < |paths| ==> paths[j] != []
  {
    && 0 <= i < |paths|
    && (forall j :: 0 <= j < |paths| ==> |paths[j]| <= |paths[i]|)
    && (forall j :: 0 <= j < |paths| && |paths[j]| == |paths[i]| ==> Last(paths[i]) <= Last(paths[j]))
    && (forall j :: 0 <= j < i && |paths[j]| == |paths[i]| ==> Last(paths[j]) != Last(paths[i]))
  }

  /**
   * The end of a lineage of `c` that is longest of all, with the smallest
   * last id among those of that length: an earliest ancestor of `c`.
   */
  ghost predicate Earliest(m: Parents, c: Person, a: Person)
  {
    exists p :: && Lineage(m, c, p) && Last(p) == a
                && forall q :: Lineage(m, c, q) ==> |q| <= |p| && (|q| == |p| ==> a <= Last(q))
  }

  class FamilyTree {
    var vertices: Parents

    ghost predicate Valid()
      reads this
    {
      Populated(vertices)
    }

    /** `__init__`: `add_connection(child, parent)` for each `(parent, child)` of `familyData`, in order. */
    constructor (familyData: seq<(Person, Person)>)
      ensures vertices == Tree(familyData) && Valid()
    {
      vertices := map[];
      new;
      var k := 0;
      while k < |familyData|
        invariant 0 <= k <= |familyData| && vertices == Tree(familyData[..k]) && Valid()
      {
        var (parent, child) := familyData[k];
        AddConnection(child, parent);
        k := k + 1;
        assert familyData[..k][..k - 1] == familyData[..k - 1];
      }
      assert familyData[..k] == familyData;
    }

    /** `add_connection`: records `parent` as a parent of `child`. */
    method AddConnection(child: Person, parent: Person)
      requires Valid()
      modifies this
      ensures vertices == Link(old(vertices), child, parent) && Valid()
    {
      if child !in vertices {
        vertices := vertices[child := {parent}];
      } else {
        vertices := vertices[child := vertices[child] + {parent}];
      }
    }

    /** `has_parents`: whether `child` has an entry, that is, at least one recorded parent. */
    function HasParents(child: Person): (r: bool)
      requires Valid()
      reads this
      ensures r <==> child in vertices && vertices[child] != {}
    {
      child in vertices
    }

    /**
     * `find_all_paths`: breadth-first over chains of parents from `child`,
     * collecting each chain that reaches someone without recorded parents.
     * The loop ends only when no one is their own ancestor, which `rank`
     * witnesses.
     */
    method FindAllPaths(child: Person, ghost rank: Person -> nat) returns (allPaths: seq<seq<Person>>)
      requires Valid() && Ranked(vertices, rank)
      ensures allPaths != []
      ensures forall i :: 0 <= i < |allPaths| ==> Lineage(vertices, child, allPaths[i])
      ensures forall p :: Lineage(vertices, child, p) ==> p in allPaths
    {
      var m := vertices;
      allPaths := [];
      var queue := [[child]];
      ghost var d := |Everyone(m)| + 1;
      ghost var last: seq<Person> := [];
      EnumerateInit(m, child);
      while |queue| != 0
        invariant Enumerating(m, child, queue, allPaths, last, {})
        decreases ChainWeight(queue, rank, d)
      {
        EnumeratePop(m, child, queue, allPaths, last);
        var path := queue[0];
        assert ChainWeight(queue, rank, d) == Power(d, rank(Last(path))) + ChainWeight(queue[1..], rank, d);
        queue := queue[1..];
        var vertex := path[|path| - 1];
        if vertex !in m {
          allPaths := allPaths + [path];
        } else {
          queue := ExpandParents(m, child, queue, allPaths, path, rank, d);
        }
        last := path;
      }
      EnumerateDone(m, child, allPaths, last);
    }

    /**
     * `find_longest_path`: the longest of `paths`, the first with the
     * smallest last id among the longest, or `[]` when there are none.
     */
    method FindLongestPath(paths: seq<seq<Person>>) returns (longestPath: seq<Person>)
      requires forall i :: 0 <= i < |paths| ==> paths[i] != []
      ensures paths == [] ==> longestPath == []
      ensures paths != [] ==> exists i :: Longest(paths, i) && longestPath == paths[i]
    {
      var longest := 0;
      longestPath := [];
      ghost var chosen := 0;
      for k := 0 to |paths|
        invariant longest == |longestPath|
        invariant k == 0 ==> longestPath == []
        invariant k > 0 ==> chosen < k && longestPath == paths[chosen] && Longest(paths[..k], chosen)
      {
        var path := paths[k];
        if |path| > longest {
          longest := |path|;
          longestPath := path;
          chosen := k;
        } else if |path| == longest {
          if path[|path| - 1] < longestPath[|longestPath| - 1] {
            longestPath := path;
            chosen := k;
          }
        }
        assert paths[..k + 1][..k] == paths[..k];
      }
      assert paths[..|paths|] == paths;
    }
  }

  /** The loop of `find_all_paths` over the parents of the end of `path`: each extends `path` into the queue. */
  method ExpandParents(m: Parents, child: Person, queue: seq<seq<Person>>, allPaths: seq<seq<Person>>,
                path: seq<Person>, ghost rank: Person -> nat, ghost d: nat)
    returns (queue': seq<seq<Person>>)
    requires Chain(m, child, path) && Last(path) in m && m[Last(path)] != {}
    requires Ranked(m, rank) && d == |Everyone(m)| + 1
    requires Enumerating(m, child, queue, allPaths, path, m[Last(path)])
    ensures Enumerating(m, child, queue', allPaths, path, {})
    ensures ChainWeight(queue', rank, d) < ChainWeight(queue, rank, d) + Power(d, rank(Last(path)))
  {
    var vertex := path[|path| - 1];
    RankPositive(m, rank, vertex);
    ghost var unit := Power(d, rank(vertex) - 1);
    ghost var n := 0;
    SpreadInit(m, child, queue, allPaths, path, rank, d, unit);
    queue' := queue;
    var todo := m[vertex];
    while todo != {}
      invariant Spreading(m, child, queue, queue', allPaths, path, todo, n, rank, d, unit)
      decreases todo
    {
      var parent := Choose(todo);
      SpreadStep(m, child, queue, queue', allPaths, path, todo, n, rank, d, unit, parent);
      queue' := queue' + [path + [parent]];
      todo := todo - {parent};
      n := n + 1;
    }
    SpreadDone(m, child, queue, queue', allPaths, path, n, rank, d, unit);
  }

  /**
   * The state of the loop of `find_all_paths` over the parents of the end
   * of `path`: `n` of them handled, `todo` left, and the queue, which held
   * `queue0` before the loop, heavier by at most `n` times `unit`, the
   * weight of a path one rank below the end of `path`.
   */
  ghost predicate Spreading(m: Parents, child: Person, queue0: seq<seq<Person>>, queue: seq<seq<Person>>,
                            all: seq<seq<Person>>, path: seq<Person>, todo: set<Person>, n: nat,
                            rank: Person -> nat, d: nat, unit: nat)
  {
    && Chain(m, child, path) && Last(path) in m
    && Ranked(m, rank) && d == |Everyone(m)| + 1
    && rank(Last(path)) >= 1 && unit == Power(d, rank(Last(path)) - 1)
    && todo <= m[Last(path)] && n + |todo| == |m[Last(path)]|
    && Enumerating(m, child, queue, all, path, todo)
    && ChainWeight(queue, rank, d) <= ChainWeight(queue0, rank, d) + n * unit
  }

  lemma SpreadInit(m: Parents, child: Person, queue: seq<seq<Person>>, all: seq<seq<Person>>, path: seq<Person>,
                   rank: Person -> nat, d: nat, unit: nat)
    requires Chain(m, child, path) && Last(path) in m && Ranked(m, rank) && d == |Everyone(m)| + 1
    requires rank(Last(path)) >= 1 && unit == Power(d, rank(Last(path)) - 1)
    requires Enumerating(m, child, queue, all, path, m[Last(path)])
    ensures Spreading(m, child, queue, queue, all, path, m[Last(path)], 0, rank, d, unit)
  {
  }

  lemma SpreadDone(m: Parents, child: Person, queue0: seq<seq<Person>>, queue: seq<seq<Person>>,
                   all: seq<seq<Person>>, path: seq<Person>, n: nat, rank: Person -> nat, d: nat, unit: nat)
    requires Spreading(m, child, queue0, queue, all, path, {}, n, rank, d, unit)
    ensures Enumerating(m, child, queue, all, path, {})
    ensures ChainWeight(queue, rank, d) < ChainWeight(queue0, rank, d) + Power(d, rank(Last(path)))
  {
    Degree(m, Last(path));
    Budget(d, rank(Last(path)), n);
  }

  lemma SpreadStep(m: Parents, child: Person, queue0: seq<seq<Person>>, queue: seq<seq<Person>>,
                   all: seq<seq<Person>>, path: seq<Person>, todo: set<Person>, n: nat,
                   rank: Person -> nat, d: nat, unit: nat, e: Person)
    requires Spreading(m, child, queue0, queue, all, path, todo, n, rank, d, unit) && e in todo
    ensures Spreading(m, child, queue0, queue + [path + [e]], all, path, todo - {e}, n + 1, rank, d, unit)
  {
    var next := path + [e];
    assert Last(next) == e && rank(e) < rank(Last(path));
    EnumerateEdge(m, child, queue, all, path, todo, e);
    WeightPush(queue, next, rank, d);
    PowerMono(d, rank(e), rank(Last(path)) - 1);
    Spend(ChainWeight(queue, rank, d), ChainWeight(queue0, rank, d), n, unit, Power(d, rank(e)));
    assert ChainWeight(queue + [next], rank, d) <= ChainWeight(queue0, rank, d) + (n + 1) * unit;
    assert |todo - {e}| == |todo| - 1;
  }

  /** One more path weighing at most `unit` stays within the allowance for `n + 1` such paths. */
  lemma Spend(w: nat, w0: nat, n: nat, unit: nat, add: nat)
    requires w <= w0 + n * unit && add <= unit
    ensures w + add <= w0 + (n + 1) * unit
  {
  }

  /** Fewer than `d` paths, each weighing at most `d` to the power `r - 1`, weigh less than `d` to the power `r`. */
  lemma Budget(d: nat, r: nat, n: nat)
    requires 1 <= r && n < d
    ensures n * Power(d, r - 1) < Power(d, r)
  {
    assert Power(d, r) == d * Power(d, r - 1);
  }

  /**
   * `earliest_ancestor`: -1 when `startingNode` has no recorded parents,
   * otherwise the end of a longest lineage from it, the smallest id among
   * the longest. `rank` witnesses that no one in `ancestors` is their own
   * ancestor, without which `find_all_paths` does not return.
   */
  method EarliestAncestor(ancestors: seq<(Person, Person)>, startingNode: Person, ghost rank: Person -> nat)
    returns (r: Person)
    requires forall i :: 0 <= i < |ancestors| ==> rank(ancestors[i].0) < rank(ancestors[i].1)
    ensures !IsChild(ancestors, startingNode) ==> r == -1
    ensures IsChild(ancestors, startingNode) ==>
              && Earliest(Tree(ancestors), startingNode, r)
              && r != startingNode && !IsChild(ancestors, r)
  {
    var familyTree := new FamilyTree(ancestors);
    TreeContents(ancestors);
    if !familyTree.HasParents(startingNode) {
      return -1;
    }
    var m := familyTree.vertices;
    assert Ranked(m, rank) by {
      forall c, p | c in m && p in m[c] ensures rank(p) < rank(c) {
        assert IsParentOf(ancestors, p, c);
      }
    }
    var paths := familyTree.FindAllPaths(startingNode, rank);
    var longestPath := familyTree.FindLongestPath(paths);
    r := longestPath[|longestPath| - 1];
    Farthest(m, startingNode, paths, longestPath);
  }

  /** The path `find_longest_path` keeps out of all the lineages ends at an earliest ancestor. */
  lemma Farthest(m: Parents, c: Person, paths: seq<seq<Person>>, longest: seq<Person>)
    requires c in m && paths != []
    requires forall i :: 0 <= i < |paths| ==> Lineage(m, c, paths[i])
    requires forall p :: Lineage(m, c, p) ==> p in paths
    requires forall i :: 0 <= i < |paths| ==> paths[i] != []
    requires exists i :: Longest(paths, i) && longest == paths[i]
    ensures longest != [] && Earliest(m, c, Last(longest)) && Last(longest) != c && Last(longest) !in m
  {
    var i :| Longest(paths, i) && longest == paths[i];
    assert Lineage(m, c, longest);
    forall q | Lineage(m, c, q) ensures |q| <= |longest| && (|q| == |longest| ==> Last(longest) <= Last(q)) {
      var j :| 0 <= j < |paths| && paths[j] == q;
    }
  }
}
