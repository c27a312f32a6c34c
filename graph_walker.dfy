/**
 * The adventure walker: it explores every room reachable from the player's
 * room, crossing every exit of those rooms, and returns the list of moves.
 *
 * It walks through the first '?' exit of the current room in the order
 * n, e, s, w; when the room has none left it walks back, by a shortest walk
 * through rooms without '?', to the nearest room that still has one; it stops
 * when no '?' is left anywhere.
 */
module Walker {
  import opened Wrappers
  import opened Rooms

  /**
   * Where the exploration stands: the invariant of `_walk_to_end`'s loop.
   * The moves so far are legal from `start` and end in `room`; the atlas
   * records exactly the rooms passed through; every recorded room is
   * connected to `start`, both ways, through resolved exits; every resolved
   * exit was crossed by some move; before the first move the atlas holds
   * only `start`'s fresh record.
   */
  ghost predicate Progress(world: World, start: RoomId, a: Atlas, counter: int, room: RoomId, p: seq<Dir>)
  {
    && Inv(world, a, counter)
    && Legal(world, start, p) && Dest(world, start, p) == room && room in a
    && (forall x :: x in a <==> x in Trace(world, start, p))
    && (forall x {:trigger Reaches(world, a, x, start)} :: x in a ==> Reaches(world, a, x, start))
    && (forall x {:trigger Reaches(world, a, start, x)} :: x in a ==> Reaches(world, a, start, x))
    && (forall x, d :: x in a && d in a[x] && a[x][d].To? ==> Walked(world, start, p, x, d))
    && (p == [] ==> start in world && a == map[start := Fresh(world, start)])
  }

  lemma ProgressInit(world: World, start: RoomId)
    requires Consistent(world) && start in world
    ensures Progress(world, start, Filled(map[], world, start), |world[start].Keys|, start, [])
  {
    var a: Atlas := map[];
    assert OpenExits(a) == {};
    FilledInv(world, a, 0, start);
    FilledRecord(a, world, start);
    var a1 := Filled(a, world, start);
    assert Resolved(world, a1, start, []);
    assert Reaches(world, a1, start, start);
  }

  /** The atlas after `_walk(room, d)`: the neighbour filled in, then the exit connected. */
  ghost function Stepped(world: World, a: Atlas, room: RoomId, d: Dir): Atlas
    requires room in a && room in world && d in world[room] && world[room][d] in world
  {
    var second := world[room][d];
    Connected(Filled(a, world, second), room, d, second)
  }

  /**
   * `_walk` through a '?' exit keeps every resolved exit, resolves the exit
   * and its reverse, and resolves nothing else.
   */
  lemma StepGrows(world: World, a: Atlas, counter: int, room: RoomId, d: Dir)
    requires Inv(world, a, counter) && room in a && d in a[room] && a[room][d] == Unexplored
    ensures room in world && d in world[room] && world[room][d] in world
    ensures var second, c := world[room][d], Stepped(world, a, room, d);
      && Grows(a, c)
      && c.Keys == a.Keys + {second}
      && d in c[room] && c[room][d] == To(second)
      && Opposite(d) in c[second] && c[second][Opposite(d)] == To(room)
      && Inv(world, c, counter + (if second in a then 0 else |world[second].Keys|) - 2)
      && forall x, e :: x in c && e in c[x] && c[x][e].To? ==>
           (x == room && e == d) || (x == second && e == Opposite(d)) || (x in a && e in a[x] && c[x][e] == a[x][e])
  {
    UseConsistent(world, room, d);
    var second := world[room][d];
    var f: Atlas := Filled(a, world, second);
    FilledRecord(a, world, second);
    FilledInv(world, a, counter, second);
    var counter1 := counter + (if second in a then 0 else |world[second].Keys|);
    assert f[room] == a[room];
    ConnectedInv(world, f, counter1, room, d, second);
    var c: Atlas := Connected(f, room, d, second);
    ConnectedAt(f, room, d, second, room);
    ConnectedAt(f, room, d, second, second);
    forall x: RoomId, e: Dir | x in c && e in c[x] && c[x][e].To?
      ensures (x == room && e == d) || (x == second && e == Opposite(d)) || (x in a && e in a[x] && c[x][e] == a[x][e])
    {
      ConnectedAt(f, room, d, second, x);
    }
    forall x, e | x in a && e in a[x] && a[x][e].To?
      ensures e in c[x] && c[x][e] == a[x][e]
    {
      ConnectedAt(f, room, d, second, x);
    }
  }

  /** Every exit resolved after `_walk` has been crossed by the walk extended with the move. */
  lemma StepWalked(world: World, start: RoomId, a: Atlas, counter: int, room: RoomId, p: seq<Dir>, d: Dir)
    requires Progress(world, start, a, counter, room, p) && d in a[room] && a[room][d] == Unexplored
    ensures room in world && d in world[room] && world[room][d] in world
    ensures var c := Stepped(world, a, room, d);
      forall x, e :: x in c && e in c[x] && c[x][e].To? ==> Walked(world, start, p + [d], x, e)
  {
    StepGrows(world, a, counter, room, d);
    var second: RoomId, c: Atlas := world[room][d], Stepped(world, a, room, d);
    var q := p + [d];
    assert q[..|q| - 1] == p;
    var t := Trace(world, start, q);
    assert t[|p|] == room && q[|p|] == d;
    UseConsistent(world, room, d);
    assert Opposite(Opposite(d)) == d;
    forall x: RoomId, e: Dir | x in c && e in c[x] && c[x][e].To?
      ensures Walked(world, start, q, x, e)
    {
      if x == room && e == d {
      } else if x == second && e == Opposite(d) {
      } else {
        WalkedExtend(world, start, p, [d], x, e);
      }
    }
  }

  /** `_walk` through a '?' exit keeps the exploration invariant. */
  lemma ProgressStep(world: World, start: RoomId, a: Atlas, counter: int, room: RoomId, p: seq<Dir>, d: Dir,
                     a2: Atlas, counter2: int, second: RoomId, p2: seq<Dir>)
    requires Progress(world, start, a, counter, room, p) && d in a[room] && a[room][d] == Unexplored
    requires room in world && d in world[room] && second == world[room][d] && second in world
    requires a2 == Stepped(world, a, room, d) && p2 == p + [d]
    requires counter2 == counter + (if second in a then 0 else |world[second].Keys|) - 2
    ensures Progress(world, start, a2, counter2, second, p2)
  {
    StepGrows(world, a, counter, room, d);
    StepWalked(world, start, a, counter, room, p, d);
    var c: Atlas := a2;
    var q := p + [d];
    assert q[..|q| - 1] == p;
    assert Trace(world, start, q) == Trace(world, start, p) + [second];
    UseConsistent(world, room, d);
    ReachesStep(world, c, second, Opposite(d));
    ReachesStep(world, c, room, d);
    ReachesGrow(world, a, c, room, start);
    ReachesGrow(world, a, c, start, room);
    forall x | x in c ensures Reaches(world, c, x, start) && Reaches(world, c, start, x) {
      if x in a {
        ReachesGrow(world, a, c, x, start);
        ReachesGrow(world, a, c, start, x);
      } else {
        ReachesTrans(world, c, second, room, start);
        ReachesTrans(world, c, start, room, second);
      }
    }
  }

  /** `_walk_back` along a walk through rooms without '?' keeps the exploration invariant. */
  lemma ProgressBack(world: World, start: RoomId, a: Atlas, counter: int, room: RoomId, p: seq<Dir>, m: seq<Dir>,
                     a2: Atlas, counter2: int, next: RoomId, p2: seq<Dir>)
    requires Progress(world, start, a, counter, room, p) && Clear(world, a, room, m)
    requires a2 == a && counter2 == counter && next == Dest(world, room, m) && p2 == p + m
    ensures Progress(world, start, a2, counter2, next, p2)
  {
    ClearResolved(world, a, counter, room, m);
    LegalAppend(world, start, p, m);
    DestAppend(world, start, p, m);
    TraceAppend(world, start, p, m);
    forall x, d | x in a && d in a[x] && a[x][d].To? ensures Walked(world, start, p + m, x, d) {
      WalkedExtend(world, start, p, m, x, d);
    }
    if p + m == [] {
      assert p == [];
    }
  }

  /** While '?' exits are left, `_walk_back` from a room without one has a walk to follow. */
  lemma ProgressTarget(world: World, start: RoomId, a: Atlas, counter: int, room: RoomId, p: seq<Dir>)
    requires Progress(world, start, a, counter, room, p) && counter > 0
    ensures exists m :: Goal(world, a, room, m)
  {
    assert Open(a) > 0;
    OpenZero(a);
    var y :| y in a && UnexploredDirs(a[y]) != {};
    ReachesTrans(world, a, room, start, y);
    SomeClearTarget(world, a, counter, room, y);
  }

  /**
   * What `walk` achieves: the moves are legal from `start`; they pass through
   * exactly the rooms reachable from `start`; they cross every exit of each
   * of those rooms, in one direction or the other; they are empty only when
   * `start` has no exit.
   */
  ghost predicate Explored(world: World, start: RoomId, p: seq<Dir>)
  {
    && start in world && Legal(world, start, p)
    && (forall x :: x in Trace(world, start, p) <==> Accessible(world, start, x))
    && (forall x, d :: Accessible(world, start, x) && x in world && d in world[x] ==> Walked(world, start, p, x, d))
    && (p == [] <==> world[start].Keys == {})
  }

  /**
   * When no '?' is left, the walk has visited exactly the rooms reachable
   * from `start`, has crossed every exit of each of them, and is empty only
   * when `start` has no exit.
   */
  lemma ProgressDone(world: World, start: RoomId, a: Atlas, room: RoomId, p: seq<Dir>)
    requires Progress(world, start, a, 0, room, p)
    ensures Explored(world, start, p)
  {
    OpenZero(a);
    var t := Trace(world, start, p);
    assert start in a;
    forall x ensures x in t <==> Accessible(world, start, x) {
      if x in t {
        var i :| 0 <= i < |t| && t[i] == x;
        TraceAt(world, start, p, i);
      }
      if Accessible(world, start, x) {
        var m :| Legal(world, start, m) && Dest(world, start, m) == x;
        Covered(world, a, 0, start, m);
      }
    }
    forall x, d | Accessible(world, start, x) && x in world && d in world[x] ensures Walked(world, start, p, x, d) {
      assert x in t;
      assert d !in UnexploredDirs(a[x]);
    }
    if p == [] {
      var a0: Atlas := map[];
      assert OpenExits(a0) == {};
      FilledRecord(a0, world, start);
    } else {
      TraceAt(world, start, p, 1);
      assert p[..1][..0] == [];
    }
  }

  // ---------------------------------------------------------------------
  // `_walk_back`'s queue

  function Pow5(k: nat): (r: nat)
    ensures r >= 1
  {
    if k == 0 then 1 else 5 * Pow5(k - 1)
  }

  /**
   * The termination measure of `_walk_back`'s loop, given the length `bound`
   * of some walk to a room with '?': every queued walk of length at most
   * `bound + 1` weighs 5 to the number of moves it is short of that.
   */
  ghost function WalkWeight(queue: seq<seq<Dir>>, bound: nat): nat
  {
    if queue == [] then 0
    else (if |queue[0]| <= bound + 1 then Pow5(bound + 1 - |queue[0]|) else 0) + WalkWeight(queue[1..], bound)
  }

  lemma {:induction false} WeightAppend(queue: seq<seq<Dir>>, m: seq<Dir>, bound: nat)
    requires |m| <= bound + 1
    ensures WalkWeight(queue + [m], bound) == WalkWeight(queue, bound) + Pow5(bound + 1 - |m|)
    decreases |queue|
  {
    if queue != [] {
      assert (queue + [m])[1..] == queue[1..] + [m];
      WeightAppend(queue[1..], m, bound);
    }
  }

  /**
   * The two queues of `_walk_back` side by side: every queued walk goes
   * through rooms without '?', and its room list is the rooms it passes.
   */
  ghost predicate Queued(world: World, a: Atlas, start: RoomId, rq: seq<seq<RoomId>>, pq: seq<seq<Dir>>)
    decreases |pq|
  {
    && |rq| == |pq|
    && (pq != [] ==>
          && Clear(world, a, start, pq[0]) && rq[0] == Trace(world, start, pq[0])
          && Queued(world, a, start, rq[1..], pq[1..]))
  }

  lemma {:induction false} QueuedPush(world: World, a: Atlas, start: RoomId, rq: seq<seq<RoomId>>, pq: seq<seq<Dir>>,
                                      r: seq<RoomId>, p: seq<Dir>)
    requires Queued(world, a, start, rq, pq) && Clear(world, a, start, p) && r == Trace(world, start, p)
    ensures Queued(world, a, start, rq + [r], pq + [p])
    decreases |pq|
  {
    if pq != [] {
      assert (rq + [r])[1..] == rq[1..] + [r];
      assert (pq + [p])[1..] == pq[1..] + [p];
      QueuedPush(world, a, start, rq[1..], pq[1..], r, p);
    } else {
      assert (rq + [r])[1..] == [] && (pq + [p])[1..] == [];
    }
  }

  /** Queued walks never get shorter towards the back. */
  ghost predicate Sorted(queue: seq<seq<Dir>>)
  {
    forall i, j :: 0 <= i <= j < |queue| ==> |queue[i]| <= |queue[j]|
  }

  /** Every walk from `start` through rooms without '?' ends in a room of the record and of the world. */
  ghost predicate Lands(world: World, a: Atlas, start: RoomId)
  {
    forall m :: Clear(world, a, start, m) ==> Dest(world, start, m) in a && Dest(world, start, m) in world
  }

  lemma InvLands(world: World, a: Atlas, counter: int, start: RoomId)
    requires Inv(world, a, counter)
    ensures Lands(world, a, start)
  {
    forall m | Clear(world, a, start, m) ensures Dest(world, start, m) in a && Dest(world, start, m) in world {
      ClearResolved(world, a, counter, start, m);
      MirrorsKeys(world, a);
    }
  }

  /** Some queued walk is a prefix of `m`. */
  ghost predicate Covers(queue: seq<seq<Dir>>, m: seq<Dir>)
  {
    exists j :: 0 <= j < |queue| && queue[j] <= m
  }

  /** Every walk `_walk_back` may return extends some queued walk. */
  ghost predicate Complete(world: World, a: Atlas, start: RoomId, queue: seq<seq<Dir>>)
  {
    forall m :: Goal(world, a, start, m) ==> Covers(queue, m)
  }

  lemma CoversAppend(queue: seq<seq<Dir>>, e: seq<Dir>, m: seq<Dir>)
    requires Covers(queue, m) || e <= m
    ensures Covers(queue + [e], m)
  {
    if Covers(queue, m) {
      var j :| 0 <= j < |queue| && queue[j] <= m;
      assert (queue + [e])[j] == queue[j];
    } else {
      assert (queue + [e])[|queue|] == e;
    }
  }

  /** The head of a sorted, complete queue is no longer than any walk `_walk_back` may return. */
  lemma HeadShortest(world: World, a: Atlas, start: RoomId, queue: seq<seq<Dir>>, m: seq<Dir>)
    requires Sorted(queue) && Complete(world, a, start, queue) && Goal(world, a, start, m)
    ensures |queue| > 0 && |queue[0]| <= |m|
  {
    var j :| 0 <= j < |queue| && queue[j] <= m;
  }

  lemma BackMinimal(world: World, a: Atlas, start: RoomId, queue: seq<seq<Dir>>)
    requires Sorted(queue) && Complete(world, a, start, queue) && |queue| > 0
    ensures forall m :: Goal(world, a, start, m) ==> |queue[0]| <= |m|
  {
    forall m | Goal(world, a, start, m) ensures |queue[0]| <= |m| {
      HeadShortest(world, a, start, queue, m);
    }
  }

  /**
   * Popping a walk that ends in a room without '?': every walk `_walk_back`
   * may return is covered by the rest of the queue or continues the popped
   * walk through one of the room's exits.
   */
  lemma ExpandStart(world: World, a: Atlas, start: RoomId, queue: seq<seq<Dir>>)
    requires Lands(world, a, start) && Complete(world, a, start, queue) && |queue| > 0
    requires Clear(world, a, start, queue[0]) && !IsTarget(a, Dest(world, start, queue[0]))
    ensures Dest(world, start, queue[0]) in world
    ensures forall m :: Goal(world, a, start, m) ==>
      Covers(queue[1..], m) || (queue[0] < m && m[|queue[0]|] in world[Dest(world, start, queue[0])])
  {
    var moves := queue[0];
    forall m | Goal(world, a, start, m)
      ensures Covers(queue[1..], m) || (moves < m && m[|moves|] in world[Dest(world, start, moves)])
    {
      var j :| 0 <= j < |queue| && queue[j] <= m;
      if j > 0 {
        assert queue[1..][j - 1] == queue[j];
      } else {
        assert m != moves;
        assert m[..|moves|] == moves && |moves| < |m|;
        ClearPrefix(world, a, start, m, |moves| + 1);
        assert m[..|moves| + 1][..|moves|] == moves;
      }
    }
  }

  /** A set of directions is the union of its members among n, e, s and w. */
  lemma DirSplit(u: set<Dir>)
    ensures u == (if N in u then {N} else {}) + (if E in u then {E} else {})
               + (if S in u then {S} else {}) + (if W in u then {W} else {})
  {
    forall x ensures x in u <==> (x == N && N in u) || (x == E && E in u) || (x == S && S in u) || (x == W && W in u) {
      match x
      case N =>
      case E =>
      case S =>
      case W =>
    }
  }

  /** There are at most four exits. */
  lemma FewExits(s: set<Dir>)
    ensures |s| <= 4
  {
    var all: set<Dir> := {N, E, S, W};
    forall x | x in s ensures x in all {
      match x
      case N =>
      case E =>
      case S =>
      case W =>
    }
    assert |all| == 4;
    SubsetCard(s, all);
  }

  lemma {:induction false} SubsetCard<T>(s: set<T>, t: set<T>)
    requires s <= t
    ensures |s| <= |t|
    decreases t
  {
    if s != {} {
      var x :| x in s;
      SubsetCard(s - {x}, t - {x});
    }
  }

  /**
   * Taking the head off the queue of `_walk_back`: the head is a walk
   * through rooms without '?' to a known room, no walk to a '?' room is
   * shorter, and the rest of the queue keeps its shape.
   */
  lemma PopHead(world: World, a: Atlas, start: RoomId, rq: seq<seq<RoomId>>, pq: seq<seq<Dir>>, best: seq<Dir>)
    requires Lands(world, a, start) && Goal(world, a, start, best)
    requires Queued(world, a, start, rq, pq) && Sorted(pq) && (pq != [] ==> Band(pq, |pq[0]|))
    requires Complete(world, a, start, pq)
    ensures pq != [] && |pq[0]| <= |best|
    ensures var path, rooms := pq[0], rq[0];
      && Clear(world, a, start, path) && rooms == Trace(world, start, path)
      && |rooms| == |path| + 1 && rooms[|path|] == Dest(world, start, path)
      && Dest(world, start, path) in a && Dest(world, start, path) in world
    ensures forall m :: Goal(world, a, start, m) ==> |pq[0]| <= |m|
    ensures Queued(world, a, start, rq[1..], pq[1..]) && Sorted(pq[1..]) && Band(pq[1..], |pq[0]|)
  {
    HeadShortest(world, a, start, pq, best);
    BackMinimal(world, a, start, pq);
    BandTail(pq);
  }

  /**
   * Besides `PopHead`: when the head's room has no '?' exit, every shortest
   * walk to a '?' room is still queued or extends the head, and the rest of
   * the queue weighs less.
   */
  lemma Pop(world: World, a: Atlas, start: RoomId, rq: seq<seq<RoomId>>, pq: seq<seq<Dir>>, best: seq<Dir>)
    requires Lands(world, a, start) && Goal(world, a, start, best)
    requires Queued(world, a, start, rq, pq) && Sorted(pq) && (pq != [] ==> Band(pq, |pq[0]|))
    requires Complete(world, a, start, pq)
    ensures pq != [] && |pq[0]| <= |best| && Dest(world, start, pq[0]) in world
    ensures Queued(world, a, start, rq[1..], pq[1..]) && Sorted(pq[1..]) && Band(pq[1..], |pq[0]|)
    ensures !IsTarget(a, Dest(world, start, pq[0])) ==>
      forall m :: Goal(world, a, start, m) ==>
        Covers(pq[1..], m) || (pq[0] < m && m[|pq[0]|] in world[Dest(world, start, pq[0])])
    ensures WalkWeight(pq, |best|) == 5 * Pow5(|best| - |pq[0]|) + WalkWeight(pq[1..], |best|)
  {
    PopHead(world, a, start, rq, pq, best);
    WeightPop(pq, |best|);
    if !IsTarget(a, Dest(world, start, pq[0])) {
      ExpandStart(world, a, start, pq);
    }
  }

  /**
   * The search of `_walk_back`: breadth-first, without a visited set, over
   * the walks from `start` through rooms without '?', expanding each room
   * through all its exits. The first walk taken from the queue that ends in
   * a room with a '?' exit is returned with that room; no such walk is
   * shorter.
   */
  method SearchBack(world: World, a: Atlas, start: RoomId) returns (target: RoomId, moves: seq<Dir>)
    requires Lands(world, a, start) && start in a && !IsTarget(a, start)
    requires exists m :: Goal(world, a, start, m)
    ensures Goal(world, a, start, moves) && Dest(world, start, moves) == target && moves != []
    ensures forall m :: Goal(world, a, start, m) ==> |moves| <= |m|
  {
    ghost var best :| Goal(world, a, start, best);
    var roomQueue: seq<seq<RoomId>> := [[start]];
    var pathQueue: seq<seq<Dir>> := [[]];
    assert Queued(world, a, start, roomQueue[1..], pathQueue[1..]);
    while |roomQueue| != 0
      invariant Frontier(world, a, start, roomQueue, pathQueue)
      decreases WalkWeight(pathQueue, |best|)
    {
      var found;
      found, target, moves, roomQueue, pathQueue := SearchStep(world, a, start, roomQueue, pathQueue, best);
      if found {
        return;
      }
    }
    assert false;
  }

  /** The state of the search between two rounds: the queues side by side, two levels deep, covering every shortest walk. */
  ghost predicate Frontier(world: World, a: Atlas, start: RoomId, rq: seq<seq<RoomId>>, pq: seq<seq<Dir>>)
  {
    && Queued(world, a, start, rq, pq)
    && Sorted(pq) && (pq != [] ==> Band(pq, |pq[0]|))
    && Complete(world, a, start, pq)
  }

  /**
   * One round of the search loop of `_walk_back`: the walk at the head of
   * the queue is returned if its room has a '?' exit, and otherwise is
   * replaced by its extensions through every exit.
   */
  method SearchStep(world: World, a: Atlas, start: RoomId, roomQueue: seq<seq<RoomId>>, pathQueue: seq<seq<Dir>>,
                    ghost best: seq<Dir>)
    returns (found: bool, target: RoomId, moves: seq<Dir>, roomQueue2: seq<seq<RoomId>>, pathQueue2: seq<seq<Dir>>)
    requires Lands(world, a, start) && Goal(world, a, start, best)
    requires Frontier(world, a, start, roomQueue, pathQueue)
    ensures found ==> && Goal(world, a, start, moves) && Dest(world, start, moves) == target
                      && forall m :: Goal(world, a, start, m) ==> |moves| <= |m|
    ensures !found ==> && Frontier(world, a, start, roomQueue2, pathQueue2)
                       && WalkWeight(pathQueue2, |best|) < WalkWeight(pathQueue, |best|)
    ensures pathQueue != [] && moves == pathQueue[0] && target == Dest(world, start, moves) && target in world
    ensures found <==> IsTarget(a, target)
    ensures !found ==>
      && |roomQueue2| >= |roomQueue| - 1 && roomQueue2[..|roomQueue| - 1] == roomQueue[1..]
      && Appended(pathQueue[1..], pathQueue2, moves, world[target].Keys)
  {
    PopHead(world, a, start, roomQueue, pathQueue, best);
    var rooms := roomQueue[0];
    var path := pathQueue[0];
    var room := rooms[|rooms| - 1];
    if UnexploredDirs(a[room]) != {} {
      return true, room, path, roomQueue[1..], pathQueue[1..];
    }
    found, target, moves := false, room, path;
    ghost var order;
    roomQueue2, pathQueue2, order := ExpandExits(world, roomQueue[1..], pathQueue[1..], rooms, path, room);
    PrefixOf(roomQueue[1..], RoomWalks(world, rooms, room, order));
    Refilled(world, a, start, roomQueue, pathQueue, roomQueue2, pathQueue2, best, room, order);
  }

  /**
   * The queues after the head walk, which ends in a room without '?', is
   * replaced by its extensions through every exit of its room: the search
   * state holds again and the queue weighs less.
   */
  lemma Refilled(world: World, a: Atlas, start: RoomId, rq: seq<seq<RoomId>>, pq: seq<seq<Dir>>,
                 rq2: seq<seq<RoomId>>, pq2: seq<seq<Dir>>, best: seq<Dir>, room: RoomId, order: seq<Dir>)
    requires Lands(world, a, start) && Goal(world, a, start, best) && Frontier(world, a, start, rq, pq)
    requires pq != [] && room == Dest(world, start, pq[0]) && room in world && !IsTarget(a, room)
    requires DistinctExits(order) && (forall e :: e in order <==> e in world[room]) && |order| == |world[room].Keys|
    requires rq2 == rq[1..] + RoomWalks(world, rq[0], room, order) && pq2 == pq[1..] + Walks(pq[0], order)
    ensures Frontier(world, a, start, rq2, pq2) && WalkWeight(pq2, |best|) < WalkWeight(pq, |best|)
  {
    PopHead(world, a, start, rq, pq, best);
    Extended(world, a, start, rq[1..], pq[1..], rq[0], pq[0], room, |best|, order, world[room].Keys);
    Restated(world, a, start, pq[1..], rq[1..] + RoomWalks(world, rq[0], room, order), pq[1..] + Walks(pq[0], order),
             pq[0], world[room].Keys, |order|, |best|, rq2, pq2, world[room].Keys, |order|);
    FewExits(world[room].Keys);
    RefilledFrom(world, a, start, rq, pq, rq2, pq2, best, |order|);
  }

  /** `Refilled`, once the extensions of the head are queued as `Expanding` describes. */
  lemma RefilledFrom(world: World, a: Atlas, start: RoomId, rq: seq<seq<RoomId>>, pq: seq<seq<Dir>>,
                     rq2: seq<seq<RoomId>>, pq2: seq<seq<Dir>>, best: seq<Dir>, n: nat)
    requires Lands(world, a, start) && Goal(world, a, start, best) && Frontier(world, a, start, rq, pq)
    requires pq != [] && Dest(world, start, pq[0]) in world && !IsTarget(a, Dest(world, start, pq[0]))
    requires Expanding(world, a, start, pq[1..], rq2, pq2, pq[0], world[Dest(world, start, pq[0])].Keys, n, |best|)
    requires n <= 4
    ensures Frontier(world, a, start, rq2, pq2) && WalkWeight(pq2, |best|) < WalkWeight(pq, |best|)
  {
    Pop(world, a, start, rq, pq, best);
    Scale(Pow5(|best| - |pq[0]|), n);
    if pq2 != [] {
      Rebase(pq2, |pq[0]|);
    }
  }

  /** Every queued walk has `lo` or `lo + 1` moves: the queue spans at most two levels of the search. */
  ghost predicate Band(queue: seq<seq<Dir>>, lo: nat)
  {
    forall i :: 0 <= i < |queue| ==> lo <= |queue[i]| <= lo + 1
  }

  lemma PushBand(queue: seq<seq<Dir>>, e: seq<Dir>, lo: nat)
    requires Sorted(queue) && Band(queue, lo) && |e| == lo + 1
    ensures Sorted(queue + [e]) && Band(queue + [e], lo)
  {
    var q := queue + [e];
    forall i, j | 0 <= i <= j < |q|
      ensures |q[i]| <= |q[j]|
    {
      if j < |queue| {
        assert q[i] == queue[i] && q[j] == queue[j];
      } else if i < |queue| {
        assert q[i] == queue[i];
      }
    }
  }

  lemma PushWeight(queue: seq<seq<Dir>>, e: seq<Dir>, bound: nat, base: nat, lo: nat, n: nat)
    requires lo <= bound && |e| == lo + 1
    requires WalkWeight(queue, bound) == base + Pow5(bound - lo) * n
    ensures WalkWeight(queue + [e], bound) == base + Pow5(bound - lo) * (n + 1)
  {
    WeightAppend(queue, e, bound);
  }

  /**
   * Every shortest walk to a '?' room is covered by `queue2`, unless
   * `queue` does not cover it and its move after `path` is still to be
   * queued.
   */
  ghost predicate Pending(world: World, a: Atlas, start: RoomId, queue: seq<seq<Dir>>, queue2: seq<seq<Dir>>,
                          path: seq<Dir>, done: set<Dir>)
  {
    forall m :: Goal(world, a, start, m) && (Covers(queue, m) || (path < m && m[|path|] in done))
                ==> Covers(queue2, m)
  }

  lemma PushCover(world: World, a: Atlas, start: RoomId, queue: seq<seq<Dir>>, queue2: seq<seq<Dir>>,
                  path: seq<Dir>, done: set<Dir>, d: Dir)
    requires Pending(world, a, start, queue, queue2, path, done)
    ensures Pending(world, a, start, queue, queue2 + [path + [d]], path, done + {d})
  {
    forall m | Goal(world, a, start, m) && (Covers(queue, m) || (path < m && m[|path|] in done + {d}))
      ensures Covers(queue2 + [path + [d]], m)
    {
      if !(Covers(queue, m) || (path < m && m[|path|] in done)) {
        assert m[..|path| + 1] == path + [d];
      }
      CoversAppend(queue2, path + [d], m);
    }
  }

  lemma Scale(unit: nat, n: nat)
    requires n <= 4
    ensures unit * n <= unit * 4
  {
  }

  /** Dequeuing the head of a queue of walks no longer than `bound`: it weighs five times a walk one move longer. */
  lemma WeightPop(queue: seq<seq<Dir>>, bound: nat)
    requires queue != [] && |queue[0]| <= bound
    ensures WalkWeight(queue, bound) == 5 * Pow5(bound - |queue[0]|) + WalkWeight(queue[1..], bound)
  {
  }

  /** The tail of a sorted queue spanning two levels spans the head's levels. */
  lemma BandTail(queue: seq<seq<Dir>>)
    requires queue != [] && Sorted(queue) && Band(queue, |queue[0]|)
    ensures Band(queue[1..], |queue[0]|) && Sorted(queue[1..])
  {
  }

  /** A sorted queue within two levels is within the two levels starting at its head. */
  lemma Rebase(queue: seq<seq<Dir>>, lo: nat)
    requires queue != [] && Sorted(queue) && Band(queue, lo)
    ensures Band(queue, |queue[0]|)
  {
  }

  /**
   * The state of the exit loop of `_walk_back` once the exits in `done`
   * are queued: the queues keep their shape, every new walk lies one
   * level below `path`, and the `n` new walks add their weight.
   */
  ghost predicate Expanding(world: World, a: Atlas, start: RoomId, pathQueue: seq<seq<Dir>>,
                            rq: seq<seq<RoomId>>, pq: seq<seq<Dir>>, path: seq<Dir>, done: set<Dir>, n: nat, bound: nat)
  {
    && Queued(world, a, start, rq, pq) && Sorted(pq) && Band(pq, |path|)
    && Pending(world, a, start, pathQueue, pq, path, done)
    && |path| <= bound
    && WalkWeight(pq, bound) == WalkWeight(pathQueue, bound) + Pow5(bound - |path|) * n
  }

  /** One pass of the exit loop of `_walk_back`: queueing the walk one move past `path` keeps the loop's invariant. */
  lemma ExpandStep(world: World, a: Atlas, start: RoomId, pathQueue: seq<seq<Dir>>,
                   rq: seq<seq<RoomId>>, pq: seq<seq<Dir>>, rooms: seq<RoomId>, path: seq<Dir>,
                   done: set<Dir>, n: nat, bound: nat, room: RoomId, d: Dir)
    requires Clear(world, a, start, path) && rooms == Trace(world, start, path) && room == Dest(world, start, path)
    requires room in a && !IsTarget(a, room) && room in world && d in world[room]
    requires Expanding(world, a, start, pathQueue, rq, pq, path, done, n, bound)
    ensures Expanding(world, a, start, pathQueue, rq + [rooms + [world[room][d]]], pq + [path + [d]], path, done + {d}, n + 1, bound)
  {
    var next := path + [d];
    assert next[..|next| - 1] == path;
    assert Clear(world, a, start, next);
    assert Trace(world, start, next) == rooms + [world[room][d]];
    QueuedPush(world, a, start, rq, pq, rooms + [world[room][d]], next);
    PushBand(pq, next, |path|);
    PushWeight(pq, next, bound, WalkWeight(pathQueue, bound), |path|, n);
    PushCover(world, a, start, pathQueue, pq, path, done, d);
  }

  /** The walks one move past `path`, through the exits `order` in turn. */
  ghost function Walks(path: seq<Dir>, order: seq<Dir>): (r: seq<seq<Dir>>)
    ensures |r| == |order|
    decreases |order|
  {
    if order == [] then [] else Walks(path, order[..|order| - 1]) + [path + [order[|order| - 1]]]
  }

  /** The room lists of `Walks(path, order)`, from the room list `rooms` of `path`, which ends in `room`. */
  ghost function RoomWalks(world: World, rooms: seq<RoomId>, room: RoomId, order: seq<Dir>): (r: seq<seq<RoomId>>)
    ensures |r| == |order|
    decreases |order|
  {
    if order == [] then []
    else
      var d := order[|order| - 1];
      RoomWalks(world, rooms, room, order[..|order| - 1])
        + [rooms + [if room in world && d in world[room] then world[room][d] else room]]
  }

  lemma WalkPush(path: seq<Dir>, order: seq<Dir>, d: Dir)
    ensures Walks(path, order + [d]) == Walks(path, order) + [path + [d]]
  {
    assert (order + [d])[..|order|] == order;
  }

  lemma WalksPush(world: World, rooms: seq<RoomId>, room: RoomId, path: seq<Dir>, order: seq<Dir>, d: Dir)
    requires room in world && d in world[room]
    ensures Walks(path, order + [d]) == Walks(path, order) + [path + [d]]
    ensures RoomWalks(world, rooms, room, order + [d]) == RoomWalks(world, rooms, room, order) + [rooms + [world[room][d]]]
  {
    assert (order + [d])[..|order|] == order;
  }

  /** A concatenation starts with its first part. */
  lemma PrefixOf<T>(q: seq<T>, r: seq<T>)
    ensures |q + r| >= |q| && (q + r)[..|q|] == q
  {
  }

  /** Appending to a concatenation appends to its second part. */
  lemma PushAfter<T>(q: seq<T>, r: seq<T>, x: T)
    ensures q + r + [x] == q + (r + [x])
  {
  }

  /** No exit occurs twice in `order`. */
  ghost predicate DistinctExits(order: seq<Dir>)
  {
    forall i, j :: 0 <= i < j < |order| ==> order[i] != order[j]
  }

  /** Part way through `exits`: those in `done` were taken, in the order `order`, and those in `todo` were not. */
  ghost predicate Counted(exits: set<Dir>, todo: set<Dir>, done: set<Dir>, order: seq<Dir>)
  {
    && todo + done == exits && todo !! done && |done| == |order|
    && DistinctExits(order) && forall e :: e in order <==> e in done
  }

  lemma CountedStep(exits: set<Dir>, todo: set<Dir>, done: set<Dir>, order: seq<Dir>, d: Dir)
    requires Counted(exits, todo, done, order) && d in todo
    ensures Counted(exits, todo - {d}, done + {d}, order + [d])
  {
    var o := order + [d];
    forall i, j | 0 <= i < j < |o|
      ensures o[i] != o[j]
    {
      if j < |order| {
        assert o[i] == order[i] && o[j] == order[j];
      } else {
        assert o[i] == order[i] && order[i] in order;
      }
    }
  }

  lemma CountedDone(exits: set<Dir>, done: set<Dir>, order: seq<Dir>)
    requires Counted(exits, {}, done, order)
    ensures done == exits && |order| == |exits| && forall e :: e in order <==> e in exits
  {
  }

  /** Taking the last exit off `order`: the rest are distinct and are the exits in `done` but the last. */
  lemma DropLast(order: seq<Dir>, done: set<Dir>)
    requires order != [] && DistinctExits(order) && forall e :: e in order <==> e in done
    ensures var k := |order| - 1;
      && order == order[..k] + [order[k]] && order[k] in done && DistinctExits(order[..k])
      && done == done - {order[k]} + {order[k]}
      && forall e :: e in order[..k] <==> e in done - {order[k]}
  {
    var k := |order| - 1;
    assert order == order[..k] + [order[k]];
    forall e
      ensures e in order[..k] <==> e in done - {order[k]}
    {
      if e in order[..k] {
        var i :| 0 <= i < k && order[..k][i] == e;
        assert order[i] == e;
      }
    }
  }

  /**
   * Queueing the walks one move past `path` through the distinct exits
   * `order`, each with its room list: the queues keep their shape, and the
   * new walks cover every shortest walk that goes on through one of them.
   */
  lemma {:induction false} Extended(world: World, a: Atlas, start: RoomId, roomQueue: seq<seq<RoomId>>,
                                    pathQueue: seq<seq<Dir>>, rooms: seq<RoomId>, path: seq<Dir>, room: RoomId,
                                    bound: nat, order: seq<Dir>, done: set<Dir>)
    requires Queued(world, a, start, roomQueue, pathQueue) && Sorted(pathQueue) && Band(pathQueue, |path|)
    requires Clear(world, a, start, path) && rooms == Trace(world, start, path) && room == Dest(world, start, path)
    requires room in a && !IsTarget(a, room) && room in world && |path| <= bound
    requires DistinctExits(order) && (forall e :: e in order <==> e in done) && done <= world[room].Keys
    ensures Expanding(world, a, start, pathQueue, roomQueue + RoomWalks(world, rooms, room, order),
                      pathQueue + Walks(path, order), path, done, |order|, bound)
    decreases |order|
  {
    if order == [] {
      assert done == {};
      ExtendedNone(world, a, start, roomQueue, pathQueue, path, bound);
      Restated(world, a, start, pathQueue, roomQueue, pathQueue, path, {}, 0, bound,
               roomQueue + RoomWalks(world, rooms, room, order), pathQueue + Walks(path, order), done, |order|);
    } else {
      var k := |order| - 1;
      var d, rest := order[k], order[..k];
      DropLast(order, done);
      Extended(world, a, start, roomQueue, pathQueue, rooms, path, room, bound, rest, done - {d});
      ExtendedStep(world, a, start, roomQueue, pathQueue, rooms, path, room, bound, order, done);
    }
  }

  /** Queueing the walk through the last exit of `order`, after those through the others. */
  lemma ExtendedStep(world: World, a: Atlas, start: RoomId, roomQueue: seq<seq<RoomId>>,
                     pathQueue: seq<seq<Dir>>, rooms: seq<RoomId>, path: seq<Dir>, room: RoomId,
                     bound: nat, order: seq<Dir>, done: set<Dir>)
    requires Clear(world, a, start, path) && rooms == Trace(world, start, path) && room == Dest(world, start, path)
    requires room in a && !IsTarget(a, room) && room in world
    requires order != [] && order[|order| - 1] in world[room]
    requires order[|order| - 1] in done
    requires var rest := order[..|order| - 1];
      Expanding(world, a, start, pathQueue, roomQueue + RoomWalks(world, rooms, room, rest),
                pathQueue + Walks(path, rest), path, done - {order[|order| - 1]}, |rest|, bound)
    ensures Expanding(world, a, start, pathQueue, roomQueue + RoomWalks(world, rooms, room, order),
                      pathQueue + Walks(path, order), path, done, |order|, bound)
  {
    var k := |order| - 1;
    var d, rest := order[k], order[..k];
    assert order == rest + [d];
    assert done == done - {d} + {d};
    ExpandStep(world, a, start, pathQueue, roomQueue + RoomWalks(world, rooms, room, rest),
               pathQueue + Walks(path, rest), rooms, path, done - {d}, |rest|, bound, room, d);
    WalksPush(world, rooms, room, path, rest, d);
    PushAfter(roomQueue, RoomWalks(world, rooms, room, rest), rooms + [world[room][d]]);
    PushAfter(pathQueue, Walks(path, rest), path + [d]);
    Restated(world, a, start, pathQueue,
             roomQueue + RoomWalks(world, rooms, room, rest) + [rooms + [world[room][d]]],
             pathQueue + Walks(path, rest) + [path + [d]], path, done - {d} + {d}, |rest| + 1, bound,
             roomQueue + RoomWalks(world, rooms, room, order), pathQueue + Walks(path, order), done, |order|);
  }

  /** Before any exit is queued. */
  lemma ExtendedNone(world: World, a: Atlas, start: RoomId, roomQueue: seq<seq<RoomId>>, pathQueue: seq<seq<Dir>>,
                     path: seq<Dir>, bound: nat)
    requires Queued(world, a, start, roomQueue, pathQueue) && Sorted(pathQueue) && Band(pathQueue, |path|)
    requires |path| <= bound
    ensures Expanding(world, a, start, pathQueue, roomQueue, pathQueue, path, {}, 0, bound)
  {
  }

  /**
   * `Expanding` holds of equal arguments. This only restates a fact for the
   * solver, so that it matches the terms of the goal at hand.
   */
  lemma Restated(world: World, a: Atlas, start: RoomId, pathQueue: seq<seq<Dir>>,
                 rq: seq<seq<RoomId>>, pq: seq<seq<Dir>>, path: seq<Dir>, done: set<Dir>, n: nat, bound: nat,
                 rq': seq<seq<RoomId>>, pq': seq<seq<Dir>>, done': set<Dir>, n': nat)
    requires Expanding(world, a, start, pathQueue, rq, pq, path, done, n, bound)
    requires rq == rq' && pq == pq' && done == done' && n == n'
    ensures Expanding(world, a, start, pathQueue, rq', pq', path, done', n', bound)
  {
  }

  /** Walks through distinct exits, one for each exit in `exits`, are what `Appended` describes. */
  lemma {:induction false} WalksAppended(queue: seq<seq<Dir>>, path: seq<Dir>, order: seq<Dir>, exits: set<Dir>)
    requires DistinctExits(order) && (forall e :: e in order <==> e in exits) && |order| == |exits|
    ensures Appended(queue, queue + Walks(path, order), path, exits)
    decreases |order|
  {
    if order == [] {
      assert (queue + [])[..|queue|] == queue;
    } else {
      var k := |order| - 1;
      var d, rest := order[k], order[..k];
      DropLast(order, exits);
      WalksAppended(queue, path, rest, exits - {d});
      AppendedPush(queue, queue + Walks(path, rest), path, exits - {d}, d);
      assert exits - {d} + {d} == exits;
      WalkPush(path, rest, d);
      PushAfter(queue, Walks(path, rest), path + [d]);
    }
  }

  /**
   * `queue2` is `queue` followed by walks one move past `path`, one for each
   * exit in `exits`.
   */
  ghost predicate Appended(queue: seq<seq<Dir>>, queue2: seq<seq<Dir>>, path: seq<Dir>, exits: set<Dir>)
  {
    && |queue2| == |queue| + |exits| && queue2[..|queue|] == queue
    && (forall i :: |queue| <= i < |queue2| ==>
          |queue2[i]| == |path| + 1 && queue2[i][..|path|] == path && queue2[i][|path|] in exits)
    && (forall i, j :: |queue| <= i < j < |queue2| ==> queue2[i][|path|] != queue2[j][|path|])
  }

  lemma AppendedPush(queue: seq<seq<Dir>>, queue2: seq<seq<Dir>>, path: seq<Dir>, exits: set<Dir>, d: Dir)
    requires Appended(queue, queue2, path, exits) && d !in exits
    ensures Appended(queue, queue2 + [path + [d]], path, exits + {d})
  {
    var q := queue2 + [path + [d]];
    assert q[..|queue|] == queue2[..|queue|];
    forall i | |queue| <= i < |q|
      ensures |q[i]| == |path| + 1 && q[i][..|path|] == path && q[i][|path|] in exits + {d}
    {
      if i < |queue2| {
        assert q[i] == queue2[i];
      }
    }
    forall i, j | |queue| <= i < j < |q|
      ensures q[i][|path|] != q[j][|path|]
    {
      assert q[i] == queue2[i];
      if j < |queue2| {
        assert q[j] == queue2[j];
      }
    }
  }

  /**
   * The loop of `_walk_back` over the exits of the room a dequeued walk ends
   * in: for each exit, in the order the loop takes them, the walk one move
   * longer and its room list are appended to the queues.
   */
  method ExpandExits(world: World, roomQueue: seq<seq<RoomId>>, pathQueue: seq<seq<Dir>>,
                rooms: seq<RoomId>, path: seq<Dir>, room: RoomId)
    returns (roomQueue2: seq<seq<RoomId>>, pathQueue2: seq<seq<Dir>>, ghost order: seq<Dir>)
    requires room in world
    ensures DistinctExits(order) && (forall e :: e in order <==> e in world[room]) && |order| == |world[room].Keys|
    ensures roomQueue2 == roomQueue + RoomWalks(world, rooms, room, order)
    ensures pathQueue2 == pathQueue + Walks(path, order)
    ensures Appended(pathQueue, pathQueue2, path, world[room].Keys)
  {
    roomQueue2, pathQueue2 := roomQueue, pathQueue;
    var todo := world[room].Keys;
    ghost var done: set<Dir> := {};
    order := [];
    assert roomQueue + [] == roomQueue && pathQueue + [] == pathQueue;
    while todo != {}
      invariant Counted(world[room].Keys, todo, done, order)
      invariant roomQueue2 == roomQueue + RoomWalks(world, rooms, room, order)
      invariant pathQueue2 == pathQueue + Walks(path, order)
    {
      var d :| d in todo;
      CountedStep(world[room].Keys, todo, done, order, d);
      WalksPush(world, rooms, room, path, order, d);
      PushAfter(roomQueue, RoomWalks(world, rooms, room, order), rooms + [world[room][d]]);
      PushAfter(pathQueue, Walks(path, order), path + [d]);
      roomQueue2 := roomQueue2 + [rooms + [world[room][d]]];
      pathQueue2 := pathQueue2 + [path + [d]];
      todo := todo - {d};
      done := done + {d};
      order := order + [d];
    }
    CountedDone(world[room].Keys, done, order);
    WalksAppended(pathQueue, path, order, world[room].Keys);
  }

  /** A sequence that starts with `p` is `p` followed by the rest. */
  lemma SplitAfter(p: seq<Dir>, q: seq<Dir>)
    requires |p| <= |q| && q[..|p|] == p
    ensures q == p + q[|p|..]
  {
  }

  /** Recording more rooms of the world leaves fewer unrecorded. */
  lemma Fewer(world: World, a0: Atlas, a: Atlas)
    requires a.Keys <= world.Keys
    ensures a0.Keys < a.Keys ==> world.Keys - a.Keys < world.Keys - a0.Keys
  {
  }

  class GraphWalker {
    /** The moves made so far. */
    var path: seq<Dir>
    /** The record of the visited rooms; the source calls it `map`. */
    var atlas: Atlas
    /** The number of '?' entries in the atlas. */
    var unexploredPaths: int

    ghost predicate Valid(world: World)
      reads this
    {
      Inv(world, atlas, unexploredPaths)
    }

    constructor ()
      ensures path == [] && atlas == map[] && unexploredPaths == 0
    {
      path := [];
      atlas := map[];
      unexploredPaths := 0;
    }

    /**
     * `walk(player)`: explores from the player's room and returns the moves.
     * The walker keeps its state between calls; only a first call is modelled.
     */
    method Walk(world: World, start: RoomId) returns (p: seq<Dir>)
      requires Consistent(world) && start in world
      requires path == [] && atlas == map[] && unexploredPaths == 0
      modifies this
      ensures p == path && Valid(world) && Explored(world, start, p)
    {
      WalkToEnd(world, start);
      p := path;
    }

    method WalkToEnd(world: World, start: RoomId)
      requires Consistent(world) && start in world
      requires path == [] && atlas == map[] && unexploredPaths == 0
      modifies this
      ensures Valid(world) && unexploredPaths == 0 && Explored(world, start, path)
    {
      ProgressInit(world, start);
      FillMap(world, start);
      var room := start;
      while unexploredPaths > 0
        invariant Progress(world, start, atlas, unexploredPaths, room, path)
        decreases world.Keys - atlas.Keys, unexploredPaths, if IsTarget(atlas, room) then 0 else 1
      {
        ghost var a0 := atlas;
        room := Advance(world, start, room);
        Fewer(world, a0, atlas);
      }
      ProgressDone(world, start, atlas, room, path);
    }

    /**
     * One turn of `_walk_to_end`'s loop: through the first '?' exit of the
     * room if it has one, otherwise back to the nearest room with one. Either
     * a new room is recorded, or two '?' are resolved, or the walker arrives
     * in a room with a '?' exit from a room without one.
     */
    method Advance(world: World, start: RoomId, room: RoomId) returns (next: RoomId)
      requires Progress(world, start, atlas, unexploredPaths, room, path) && unexploredPaths > 0
      modifies this
      ensures Progress(world, start, atlas, unexploredPaths, next, path)
      ensures atlas.Keys <= world.Keys
      ensures old(GetWalkDirection(room)).Some? ==>
        var d := old(GetWalkDirection(room)).value;
        && next == world[room][d] && path == old(path) + [d]
        && atlas == Stepped(world, old(atlas), room, d)
        && unexploredPaths == old(unexploredPaths) + (if next in old(atlas) then 0 else |world[next].Keys|) - 2
      ensures old(GetWalkDirection(room)).None? ==>
        && atlas == old(atlas) && unexploredPaths == old(unexploredPaths)
        && |old(path)| < |path| && path[..|old(path)|] == old(path)
        && Goal(world, atlas, room, path[|old(path)|..]) && Dest(world, room, path[|old(path)|..]) == next
        && forall m :: Goal(world, atlas, room, m) ==> |path| - |old(path)| <= |m|
      ensures || (old(atlas).Keys < atlas.Keys)
              || (atlas.Keys == old(atlas).Keys && unexploredPaths < old(unexploredPaths))
              || (atlas == old(atlas) && unexploredPaths == old(unexploredPaths)
                  && !IsTarget(atlas, room) && IsTarget(atlas, next))
    {
      var direction := GetWalkDirection(room);
      if direction.Some? {
        next := Forward(world, start, room, direction.value);
      } else {
        next := Backward(world, start, room);
      }
      MirrorsKeys(world, atlas);
    }

    /** `_walk` inside `_walk_to_end`'s loop. */
    method Forward(world: World, start: RoomId, room: RoomId, d: Dir) returns (next: RoomId)
      requires Progress(world, start, atlas, unexploredPaths, room, path)
      requires d in atlas[room] && atlas[room][d] == Unexplored
      modifies this
      ensures Progress(world, start, atlas, unexploredPaths, next, path)
      ensures next == world[room][d] && path == old(path) + [d]
      ensures atlas == Stepped(world, old(atlas), room, d)
      ensures unexploredPaths == old(unexploredPaths) + (if next in old(atlas) then 0 else |world[next].Keys|) - 2
      ensures || (old(atlas).Keys < atlas.Keys)
              || (atlas.Keys == old(atlas).Keys && unexploredPaths < old(unexploredPaths))
    {
      ghost var a, counter, p := atlas, unexploredPaths, path;
      StepGrows(world, atlas, unexploredPaths, room, d);
      next := WalkStep(world, room, d);
      ProgressStep(world, start, a, counter, room, p, d, atlas, unexploredPaths, next, path);
    }

    /** `_walk_back` inside `_walk_to_end`'s loop. */
    method Backward(world: World, start: RoomId, room: RoomId) returns (next: RoomId)
      requires Progress(world, start, atlas, unexploredPaths, room, path) && unexploredPaths > 0
      requires !IsTarget(atlas, room)
      modifies this
      ensures Progress(world, start, atlas, unexploredPaths, next, path)
      ensures atlas == old(atlas) && unexploredPaths == old(unexploredPaths) && IsTarget(atlas, next)
      ensures |old(path)| < |path| && path[..|old(path)|] == old(path)
      ensures Goal(world, atlas, room, path[|old(path)|..]) && Dest(world, room, path[|old(path)|..]) == next
      ensures forall m :: Goal(world, atlas, room, m) ==> |path| - |old(path)| <= |m|
    {
      ghost var a, counter, p := atlas, unexploredPaths, path;
      ProgressTarget(world, start, atlas, unexploredPaths, room, path);
      next := WalkBack(world, room);
      ghost var m := path[|p|..];
      SplitAfter(p, path);
      ProgressBack(world, start, a, counter, room, p, m, atlas, unexploredPaths, next, path);
    }

    /** `_fill_map`: a room seen for the first time gets a record with every exit '?'. */
    method FillMap(world: World, room: RoomId)
      requires room in world
      modifies this
      ensures atlas == Filled(old(atlas), world, room)
      ensures unexploredPaths == old(unexploredPaths) + (if room in old(atlas) then 0 else |world[room].Keys|)
      ensures path == old(path)
    {
      if room !in atlas {
        var exitMap: Exits := map[];
        var todo := world[room].Keys;
        ghost var done: set<Dir> := {};
        while todo != {}
          invariant todo + done == world[room].Keys && todo !! done
          invariant exitMap == map d | d in done :: Unexplored
          invariant unexploredPaths == old(unexploredPaths) + |done|
          invariant atlas == old(atlas) && path == old(path)
        {
          var d :| d in todo;
          exitMap := exitMap[d := Unexplored];
          unexploredPaths := unexploredPaths + 1;
          todo := todo - {d};
          done := done + {d};
        }
        atlas := atlas[room := exitMap];
      }
    }

    /** `_get_walk_direction`: the first '?' exit in the order n, e, s, w, if any. */
    function GetWalkDirection(room: RoomId): (r: Option<Dir>)
      requires room in atlas
      reads this
      ensures r.None? <==> UnexploredDirs(atlas[room]) == {}
      ensures r.Some? ==> r.value in UnexploredDirs(atlas[room])
      ensures r.Some? ==> forall d :: d in UnexploredDirs(atlas[room]) ==> Priority(r.value) <= Priority(d)
    {
      var exits := atlas[room];
      if N in exits && exits[N] == Unexplored then
        assert N in UnexploredDirs(exits); Some(N)
      else if E in exits && exits[E] == Unexplored then
        assert E in UnexploredDirs(exits); Some(E)
      else if S in exits && exits[S] == Unexplored then
        assert S in UnexploredDirs(exits); Some(S)
      else if W in exits && exits[W] == Unexplored then
        assert W in UnexploredDirs(exits); Some(W)
      else
        DirSplit(UnexploredDirs(exits)); None
    }

    /** `_walk`: move through the '?' exit `d`, record the neighbour, connect both sides. */
    method WalkStep(world: World, room: RoomId, d: Dir) returns (second: RoomId)
      requires Valid(world) && room in atlas && d in atlas[room] && atlas[room][d] == Unexplored
      requires room in world && d in world[room]
      modifies this
      ensures second == world[room][d] && second in world
      ensures atlas == Stepped(world, old(atlas), room, d)
      ensures unexploredPaths == old(unexploredPaths) + (if second in old(atlas) then 0 else |world[second].Keys|) - 2
      ensures path == old(path) + [d]
      ensures Valid(world)
    {
      StepGrows(world, atlas, unexploredPaths, room, d);
      second := world[room][d];
      FillMap(world, second);
      AddConnection(room, d, second);
      path := path + [d];
    }

    /**
     * `_walk_back`: moves along the walk `SearchBack` finds and returns the
     * room it ends in, the nearest room with a '?' exit.
     */
    method WalkBack(world: World, start: RoomId) returns (target: RoomId)
      requires Valid(world) && start in atlas && !IsTarget(atlas, start)
      requires exists m :: Goal(world, atlas, start, m)
      modifies this
      ensures atlas == old(atlas) && unexploredPaths == old(unexploredPaths)
      ensures |old(path)| < |path| && path[..|old(path)|] == old(path)
      ensures Goal(world, atlas, start, path[|old(path)|..]) && Dest(world, start, path[|old(path)|..]) == target
      ensures forall m :: Goal(world, atlas, start, m) ==> |path| - |old(path)| <= |m|
    {
      var moves;
      InvLands(world, atlas, unexploredPaths, start);
      target, moves := SearchBack(world, atlas, start);
      ghost var walked := path;
      Retrace(moves);
      assert path[|walked|..] == moves;
    }

    /** The loop at the end of `_walk_back` that appends the moves found to `path`, one by one. */
    method Retrace(moves: seq<Dir>)
      modifies this
      ensures path == old(path) + moves
      ensures atlas == old(atlas) && unexploredPaths == old(unexploredPaths)
    {
      var k := 0;
      while k < |moves|
        invariant 0 <= k <= |moves| && path == old(path) + moves[..k]
        invariant atlas == old(atlas) && unexploredPaths == old(unexploredPaths)
      {
        path := path + [moves[k]];
        k := k + 1;
        assert moves[..k] == moves[..k - 1] + [moves[k - 1]];
      }
      assert moves[..k] == moves;
    }

    /** `_add_connection`: resolve exit `d` of `first` and the opposite exit of `second`. */
    method AddConnection(first: RoomId, d: Dir, second: RoomId)
      requires first in atlas && second in atlas
      modifies this
      ensures atlas == Connected(old(atlas), first, d, second)
      ensures unexploredPaths == old(unexploredPaths) - 2 && path == old(path)
    {
      if d == N {
        atlas := atlas[first := atlas[first][N := To(second)]];
        atlas := atlas[second := atlas[second][S := To(first)]];
      } else if d == S {
        atlas := atlas[first := atlas[first][S := To(second)]];
        atlas := atlas[second := atlas[second][N := To(first)]];
      } else if d == E {
        atlas := atlas[first := atlas[first][E := To(second)]];
        atlas := atlas[second := atlas[second][W := To(first)]];
      } else {
        atlas := atlas[first := atlas[first][W := To(second)]];
        atlas := atlas[second := atlas[second][E := To(first)]];
      }
      unexploredPaths := unexploredPaths - 2;
    }
  }
}
