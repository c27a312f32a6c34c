/**
 * The world the adventure walker explores, and the record it keeps of it.
 *
 * The rooms themselves are not part of this model: a room answers two
 * questions, which exits it has and which room lies behind an exit. Both are
 * gathered in a read-only `World` value. The walker's own record of the rooms
 * it has seen is an `Atlas`: for every visited room, each exit maps either to
 * `Unexplored` (the source's '?') or to the id of the room behind it.
 */
module Rooms {

  type RoomId = int

  /** The four exits 'n', 'e', 's' and 'w'. */
  datatype Dir = N | E | S | W

  function Opposite(d: Dir): (o: Dir)
    ensures o != d
  {
    match d
    case N => S
    case S => N
    case E => W
    case W => E
  }

  /** Position of a direction in the walker's fixed preference order n, e, s, w. */
  function Priority(d: Dir): nat
  {
    match d
    case N => 0
    case E => 1
    case S => 2
    case W => 3
  }

  /** `world[r].Keys` is `get_exits()` of room r; `world[r][d]` is `get_room_in_direction(d)`. */
  type World = map<RoomId, map<Dir, RoomId>>

  /** Walking through exit `d` of room `r` and back through the opposite exit returns to `r`. */
  ghost predicate ConsistentAt(world: World, r: RoomId, d: Dir)
  {
    r in world && d in world[r] ==>
      var x := world[r][d];
      x in world && Opposite(d) in world[x] && world[x][Opposite(d)] == r
  }

  /** The room oracle's contract: every exit leads to a known room, and back. */
  ghost predicate Consistent(world: World)
  {
    forall r, d :: ConsistentAt(world, r, d)
  }

  /** An entry of a room's record: '?' or the id of the neighbour. */
  datatype Entry = Unexplored | To(room: RoomId)

  type Exits = map<Dir, Entry>

  type Atlas = map<RoomId, Exits>

  function UnexploredDirs(e: Exits): set<Dir>
  {
    set d | d in e && e[d] == Unexplored
  }

  /** The '?' entries of the atlas, as (room, exit) pairs. */
  ghost function OpenExits(a: Atlas): set<(RoomId, Dir)>
  {
    set r, d | r in a && d in a[r] && a[r][d] == Unexplored :: (r, d)
  }

  /** Total number of '?' entries over all rooms of the atlas. */
  ghost function Open(a: Atlas): nat
  {
    |OpenExits(a)|
  }

  /** The record `_fill_map` creates for a newly seen room: every exit '?'. */
  function Fresh(world: World, r: RoomId): Exits
    requires r in world
  {
    map d | d in world[r] :: Unexplored
  }

  /** The atlas after `_fill_map(r)`. */
  function Filled(a: Atlas, world: World, r: RoomId): Atlas
    requires r in world
  {
    if r in a then a else a[r := Fresh(world, r)]
  }

  /** The atlas with exit `d` of room `r` resolved to room `x`. */
  function Resolve(a: Atlas, r: RoomId, d: Dir, x: RoomId): (c: Atlas)
    requires r in a
    ensures c.Keys == a.Keys
  {
    a[r := a[r][d := To(x)]]
  }

  /** The atlas after `_add_connection(first, d, second)`: both halves of the edge closed. */
  function Connected(a: Atlas, first: RoomId, d: Dir, second: RoomId): (c: Atlas)
    requires first in a && second in a
    ensures c.Keys == a.Keys
  {
    Resolve(Resolve(a, first, d, second), second, Opposite(d), first)
  }

  /** Every recorded room is a room of the world, with exactly its exits. */
  ghost predicate Mirrors(world: World, a: Atlas)
  {
    forall r :: r in a ==> r in world && a[r].Keys == world[r].Keys
  }

  /** A resolved exit names the oracle's neighbour, which is recorded and resolved back. */
  ghost predicate LinkedAt(world: World, a: Atlas, r: RoomId, d: Dir)
  {
    r in a && d in a[r] && a[r][d].To? ==>
      var x := a[r][d].room;
      && r in world && d in world[r] && x == world[r][d]
      && x in a
      && Opposite(d) in a[x]
      && a[x][Opposite(d)] == To(r)
  }

  ghost predicate Linked(a: Atlas, world: World)
  {
    forall r, d :: LinkedAt(world, a, r, d)
  }

  /**
   * The walker's state invariant: the atlas mirrors the world room by room,
   * every resolved exit names the oracle's neighbour and is closed from the
   * other side too, and the counter is the number of '?' entries.
   */
  ghost predicate Inv(world: World, a: Atlas, counter: int)
  {
    Consistent(world) && Mirrors(world, a) && Linked(a, world) && counter == Open(a)
  }

  /** A recorded room that still has a '?' exit. */
  ghost predicate IsTarget(a: Atlas, r: RoomId)
  {
    r in a && UnexploredDirs(a[r]) != {}
  }

  // ---------------------------------------------------------------------
  // Using the invariant one entry at a time

  lemma UseConsistent(world: World, r: RoomId, d: Dir)
    requires Consistent(world) && r in world && d in world[r]
    ensures world[r][d] in world && Opposite(d) in world[world[r][d]]
    ensures world[world[r][d]][Opposite(d)] == r
  {
    assert ConsistentAt(world, r, d);
  }

  lemma UseLinked(world: World, a: Atlas, r: RoomId, d: Dir)
    requires Linked(a, world) && r in a && d in a[r] && a[r][d].To?
    ensures r in world && d in world[r] && a[r][d].room == world[r][d] && a[r][d].room in a
    ensures Opposite(d) in a[a[r][d].room] && a[a[r][d].room][Opposite(d)] == To(r)
  {
    assert LinkedAt(world, a, r, d);
  }

  lemma MirrorsKeys(world: World, a: Atlas)
    requires Mirrors(world, a)
    ensures a.Keys <= world.Keys
  {
    forall r | r in a.Keys ensures r in world.Keys {
      assert r in a;
    }
  }

  /** In a room without '?', every exit is resolved, to the oracle's neighbour, which is recorded. */
  lemma ResolvedExit(world: World, a: Atlas, counter: int, r: RoomId, d: Dir)
    requires Inv(world, a, counter) && r in a && UnexploredDirs(a[r]) == {} && d in world[r]
    ensures d in a[r] && a[r][d] == To(world[r][d]) && world[r][d] in a
  {
    assert d !in UnexploredDirs(a[r]);
    UseLinked(world, a, r, d);
  }

  // ---------------------------------------------------------------------
  // Counting '?' entries

  lemma {:induction false} TaggedCount(r: RoomId, k: set<Dir>)
    ensures |set d | d in k :: (r, d)| == |k|
    decreases k
  {
    if k != {} {
      var d0 :| d0 in k;
      TaggedCount(r, k - {d0});
      assert (set d | d in k :: (r, d)) == (set d | d in k - {d0} :: (r, d)) + {(r, d0)};
    }
  }

  lemma OpenAdd(a: Atlas, r: RoomId, e: Exits)
    requires r !in a
    ensures Open(a[r := e]) == Open(a) + |UnexploredDirs(e)|
  {
    var t := set d | d in UnexploredDirs(e) :: (r, d);
    assert OpenExits(a[r := e]) == OpenExits(a) + t;
    assert OpenExits(a) !! t;
    TaggedCount(r, UnexploredDirs(e));
  }

  /** No '?' is counted exactly when no room has one. */
  lemma OpenZero(a: Atlas)
    ensures Open(a) == 0 <==> forall r :: r in a ==> UnexploredDirs(a[r]) == {}
  {
    if Open(a) == 0 {
      forall r | r in a ensures UnexploredDirs(a[r]) == {} {
        forall d | d in UnexploredDirs(a[r]) ensures (r, d) in OpenExits(a) { }
      }
    } else {
      var p :| p in OpenExits(a);
      assert p.1 in UnexploredDirs(a[p.0]);
    }
  }

  // ---------------------------------------------------------------------
  // The record operations

  /** `_fill_map`: idempotent on a known room; on a new one it adds one all-'?' record. */
  lemma FilledRecord(a: Atlas, world: World, r: RoomId)
    requires r in world
    ensures Filled(a, world, r).Keys == a.Keys + {r}
    ensures r in a ==> Filled(a, world, r) == a && Filled(Filled(a, world, r), world, r) == a
    ensures r !in a ==> forall x :: x in a ==> Filled(a, world, r)[x] == a[x]
    ensures r !in a ==> Filled(a, world, r)[r].Keys == world[r].Keys
    ensures r !in a ==> UnexploredDirs(Filled(a, world, r)[r]) == world[r].Keys
    ensures Open(Filled(a, world, r)) == Open(a) + (if r in a then 0 else |world[r].Keys|)
  {
    if r !in a {
      assert UnexploredDirs(Fresh(world, r)) == world[r].Keys;
      OpenAdd(a, r, Fresh(world, r));
    }
  }

  /** Filling a room keeps the invariant when the counter grows by the room's exit count. */
  lemma FilledInv(world: World, a: Atlas, counter: int, r: RoomId)
    requires Inv(world, a, counter) && r in world
    ensures Inv(world, Filled(a, world, r), counter + (if r in a then 0 else |world[r].Keys|))
  {
    FilledRecord(a, world, r);
    if r !in a {
      var a': Atlas := Filled(a, world, r);
      forall x: RoomId, d: Dir ensures LinkedAt(world, a', x, d) {
        if x in a' && d in a'[x] && a'[x][d].To? {
          assert x != r;
          assert a'[x] == a[x];
          UseLinked(world, a, x, d);
        }
      }
    }
  }

  /** The reverse half of a '?' exit is '?' as well. */
  lemma ReverseUnexplored(world: World, a: Atlas, first: RoomId, d: Dir)
    requires Consistent(world) && Mirrors(world, a) && Linked(a, world)
    requires first in a && d in a[first] && a[first][d] == Unexplored
    requires world[first][d] in a
    ensures Opposite(d) in a[world[first][d]] && a[world[first][d]][Opposite(d)] == Unexplored
  {
    var second, o := world[first][d], Opposite(d);
    UseConsistent(world, first, d);
    assert o in a[second];
    assert LinkedAt(world, a, second, o);
  }

  /**
   * `_add_connection` on an exit that is still '?', towards the oracle's
   * neighbour: the reverse entry is '?' too, so exactly two '?' disappear and
   * the invariant holds with the counter lowered by 2.
   */
  lemma ConnectedInv(world: World, a: Atlas, counter: int, first: RoomId, d: Dir, second: RoomId)
    requires Inv(world, a, counter)
    requires first in a && d in a[first] && a[first][d] == Unexplored
    requires second == world[first][d] && second in a
    ensures Opposite(d) in a[second] && a[second][Opposite(d)] == Unexplored
    ensures Inv(world, Connected(a, first, d, second), counter - 2)
    ensures Open(Connected(a, first, d, second)) == Open(a) - 2
  {
    ReverseUnexplored(world, a, first, d);
    ConnectedOpen(a, first, d, second);
    ConnectedLinked(world, a, first, d, second);
  }

  lemma ResolveAt(a: Atlas, r: RoomId, d: Dir, x: RoomId, r': RoomId)
    requires r in a && r' in a
    ensures Resolve(a, r, d, x)[r'] == if r' == r then a[r][d := To(x)] else a[r']
  {
  }

  lemma ResolveOpen(a: Atlas, r: RoomId, d: Dir, x: RoomId)
    requires r in a && d in a[r] && a[r][d] == Unexplored
    ensures OpenExits(Resolve(a, r, d, x)) == OpenExits(a) - {(r, d)}
  {
  }

  lemma ConnectedOpen(a: Atlas, first: RoomId, d: Dir, second: RoomId)
    requires first in a && d in a[first] && a[first][d] == Unexplored
    requires second in a && Opposite(d) in a[second] && a[second][Opposite(d)] == Unexplored
    ensures Open(Connected(a, first, d, second)) == Open(a) - 2
  {
    var o := Opposite(d);
    var a1 := Resolve(a, first, d, second);
    ResolveOpen(a, first, d, second);
    ResolveAt(a, first, d, second, second);
    assert a1[second][o] == Unexplored;
    ResolveOpen(a1, second, o, first);
    assert (first, d) != (second, o);
    assert OpenExits(Connected(a, first, d, second)) == OpenExits(a) - {(first, d)} - {(second, o)};
  }

  /** Where the two halves land, and that nothing else changes. */
  lemma ConnectedAt(a: Atlas, first: RoomId, d: Dir, second: RoomId, r: RoomId)
    requires first in a && second in a && r in a
    ensures var c := Connected(a, first, d, second);
      && c[r].Keys == a[r].Keys + (if r == first then {d} else {}) + (if r == second then {Opposite(d)} else {})
      && (forall d' :: d' in c[r] ==>
            c[r][d'] == if r == second && d' == Opposite(d) then To(first)
                        else if r == first && d' == d then To(second)
                        else a[r][d'])
  {
    var a1 := Resolve(a, first, d, second);
    ResolveAt(a, first, d, second, r);
    ResolveAt(a, first, d, second, second);
    ResolveAt(a1, second, Opposite(d), first, r);
  }

  lemma ConnectedLinked(world: World, a: Atlas, first: RoomId, d: Dir, second: RoomId)
    requires Consistent(world) && Mirrors(world, a) && Linked(a, world)
    requires first in a && d in a[first] && a[first][d] == Unexplored
    requires second == world[first][d] && second in a
    requires Opposite(d) in a[second] && a[second][Opposite(d)] == Unexplored
    ensures Mirrors(world, Connected(a, first, d, second))
    ensures Linked(Connected(a, first, d, second), world)
  {
    var c: Atlas := Connected(a, first, d, second);
    forall r | r in c ensures r in world && c[r].Keys == world[r].Keys {
      ConnectedAt(a, first, d, second, r);
    }
    forall r: RoomId, d': Dir ensures LinkedAt(world, c, r, d') {
      if r in c && d' in c[r] && c[r][d'].To? {
        ConnectedEntry(world, a, first, d, second, r, d');
      }
    }
  }

  lemma ConnectedEntry(world: World, a: Atlas, first: RoomId, d: Dir, second: RoomId, r: RoomId, d': Dir)
    requires Consistent(world) && Mirrors(world, a) && Linked(a, world)
    requires first in a && d in a[first] && a[first][d] == Unexplored
    requires second == world[first][d] && second in a
    requires Opposite(d) in a[second] && a[second][Opposite(d)] == Unexplored
    requires r in a
    ensures LinkedAt(world, Connected(a, first, d, second), r, d')
  {
    var o := Opposite(d);
    var c: Atlas := Connected(a, first, d, second);
    ConnectedAt(a, first, d, second, r);
    if d' in c[r] && c[r][d'].To? {
      var x := c[r][d'].room;
      if r == second && d' == o {
        assert x == first;
        UseConsistent(world, first, d);
        ConnectedAt(a, first, d, second, x);
      } else if r == first && d' == d {
        assert x == second;
        ConnectedAt(a, first, d, second, x);
      } else {
        assert c[r][d'] == a[r][d'];
        UseLinked(world, a, r, d');
        ConnectedAt(a, first, d, second, x);
        assert !(x == first && Opposite(d') == d);
        assert !(x == second && Opposite(d') == o);
      }
    }
  }

  // ---------------------------------------------------------------------
  // Walks: sequences of moves from a room

  /** The room reached from `r` by the moves `m`; a move through an exit the room lacks stays put. */
  function Dest(world: World, r: RoomId, m: seq<Dir>): RoomId
    decreases |m|
  {
    if m == [] then r
    else
      var p, d := Dest(world, r, m[..|m| - 1]), m[|m| - 1];
      if p in world && d in world[p] then world[p][d] else p
  }

  /** Every move of `m`, made from `r`, goes through an exit the room has. */
  ghost predicate Legal(world: World, r: RoomId, m: seq<Dir>)
    decreases |m|
  {
    if m == [] then r in world
    else
      var p := Dest(world, r, m[..|m| - 1]);
      Legal(world, r, m[..|m| - 1]) && p in world && m[|m| - 1] in world[p]
  }

  /** The rooms passed through by the moves `m` from `r`, first and last included. */
  ghost function Trace(world: World, r: RoomId, m: seq<Dir>): (t: seq<RoomId>)
    ensures |t| == |m| + 1 && t[0] == r && t[|m|] == Dest(world, r, m)
    decreases |m|
  {
    if m == [] then [r] else Trace(world, r, m[..|m| - 1]) + [Dest(world, r, m)]
  }

  /** `x` can be walked to from `r` in the world. */
  ghost predicate Accessible(world: World, r: RoomId, x: RoomId)
  {
    exists m :: Legal(world, r, m) && Dest(world, r, m) == x
  }

  /** Every move of `m` from `r` goes through an exit the atlas has already resolved. */
  ghost predicate Resolved(world: World, a: Atlas, r: RoomId, m: seq<Dir>)
    decreases |m|
  {
    if m == [] then r in a
    else
      var p, d := Dest(world, r, m[..|m| - 1]), m[|m| - 1];
      Resolved(world, a, r, m[..|m| - 1]) && p in a && d in a[p] && a[p][d].To?
  }

  /**
   * The walks `_walk_back` follows: from a recorded room, every room left on
   * the way is recorded and has no '?' exit left.
   */
  ghost predicate Clear(world: World, a: Atlas, r: RoomId, m: seq<Dir>)
    decreases |m|
  {
    if m == [] then r in a
    else
      var p, d := Dest(world, r, m[..|m| - 1]), m[|m| - 1];
      Clear(world, a, r, m[..|m| - 1]) && p in a && !IsTarget(a, p) && p in world && d in world[p]
  }

  /** A walk `_walk_back` may return: through rooms without '?' to a room with one. */
  ghost predicate Goal(world: World, a: Atlas, start: RoomId, m: seq<Dir>)
  {
    Clear(world, a, start, m) && IsTarget(a, Dest(world, start, m))
  }

  /** The atlas connects `x` to `y` through resolved exits. */
  ghost predicate Reaches(world: World, a: Atlas, x: RoomId, y: RoomId)
  {
    exists m :: Resolved(world, a, x, m) && Dest(world, x, m) == y
  }

  /** `a2` keeps every room and every resolved exit of `a`. */
  ghost predicate Grows(a: Atlas, a2: Atlas)
  {
    && a.Keys <= a2.Keys
    && forall x, d :: x in a && d in a[x] && a[x][d].To? ==> d in a2[x] && a2[x][d] == a[x][d]
  }

  /** Some move of the walk `p` from `start` crosses exit `d` of room `x`, in one direction or the other. */
  ghost predicate Walked(world: World, start: RoomId, p: seq<Dir>, x: RoomId, d: Dir)
  {
    x in world && d in world[x] &&
    var t := Trace(world, start, p);
    exists i :: 0 <= i < |p| && ((t[i] == x && p[i] == d) || (t[i] == world[x][d] && p[i] == Opposite(d)))
  }

  lemma {:induction false} DestAppend(world: World, r: RoomId, m: seq<Dir>, n: seq<Dir>)
    ensures Dest(world, r, m + n) == Dest(world, Dest(world, r, m), n)
    decreases |n|
  {
    if n == [] {
      assert m + n == m;
    } else {
      assert (m + n)[..|m + n| - 1] == m + n[..|n| - 1];
      DestAppend(world, r, m, n[..|n| - 1]);
    }
  }

  lemma {:induction false} TraceAppend(world: World, r: RoomId, m: seq<Dir>, n: seq<Dir>)
    ensures Trace(world, r, m + n) == Trace(world, r, m) + Trace(world, Dest(world, r, m), n)[1..]
    decreases |n|
  {
    if n == [] {
      assert m + n == m;
    } else {
      var n' := n[..|n| - 1];
      var x := Dest(world, r, m);
      assert (m + n)[..|m + n| - 1] == m + n';
      TraceAppend(world, r, m, n');
      DestAppend(world, r, m, n);
      assert Trace(world, x, n)[1..] == Trace(world, x, n')[1..] + [Dest(world, x, n)];
    }
  }

  lemma {:induction false} LegalAppend(world: World, r: RoomId, m: seq<Dir>, n: seq<Dir>)
    requires Legal(world, r, m) && Legal(world, Dest(world, r, m), n)
    ensures Legal(world, r, m + n)
    decreases |n|
  {
    if n == [] {
      assert m + n == m;
    } else {
      assert (m + n)[..|m + n| - 1] == m + n[..|n| - 1];
      LegalAppend(world, r, m, n[..|n| - 1]);
      DestAppend(world, r, m, n[..|n| - 1]);
    }
  }

  lemma {:induction false} ResolvedAppend(world: World, a: Atlas, r: RoomId, m: seq<Dir>, n: seq<Dir>)
    requires Resolved(world, a, r, m) && Resolved(world, a, Dest(world, r, m), n)
    ensures Resolved(world, a, r, m + n)
    decreases |n|
  {
    if n == [] {
      assert m + n == m;
    } else {
      assert (m + n)[..|m + n| - 1] == m + n[..|n| - 1];
      ResolvedAppend(world, a, r, m, n[..|n| - 1]);
      DestAppend(world, r, m, n[..|n| - 1]);
    }
  }

  /** Room `i` of a trace is where the first `i` moves lead, and a prefix of a legal walk is legal. */
  lemma {:induction false} TraceAt(world: World, r: RoomId, m: seq<Dir>, i: nat)
    requires i <= |m|
    ensures Trace(world, r, m)[i] == Dest(world, r, m[..i])
    ensures Legal(world, r, m) ==> Legal(world, r, m[..i])
    decreases |m|
  {
    if i < |m| {
      var m' := m[..|m| - 1];
      assert m'[..i] == m[..i];
      TraceAt(world, r, m', i);
    } else {
      assert m[..i] == m;
    }
  }

  lemma {:induction false} ClearPrefix(world: World, a: Atlas, r: RoomId, m: seq<Dir>, i: nat)
    requires Clear(world, a, r, m) && i <= |m|
    ensures Clear(world, a, r, m[..i])
    decreases |m|
  {
    if i < |m| {
      var m' := m[..|m| - 1];
      assert m'[..i] == m[..i];
      ClearPrefix(world, a, r, m', i);
    } else {
      assert m[..i] == m;
    }
  }

  /** A walk `_walk_back` follows is legal, goes through resolved exits only, and stays in the atlas. */
  lemma {:induction false} ClearResolved(world: World, a: Atlas, counter: int, r: RoomId, m: seq<Dir>)
    requires Inv(world, a, counter) && Clear(world, a, r, m)
    ensures Legal(world, r, m) && Resolved(world, a, r, m) && Dest(world, r, m) in a
    ensures forall x :: x in Trace(world, r, m) ==> x in a
    decreases |m|
  {
    if m != [] {
      var m', d := m[..|m| - 1], m[|m| - 1];
      ClearResolved(world, a, counter, r, m');
      ResolvedExit(world, a, counter, Dest(world, r, m'), d);
    }
  }

  /** Under the invariant a resolved walk ends in a recorded room. */
  lemma {:induction false} ResolvedDest(world: World, a: Atlas, counter: int, r: RoomId, m: seq<Dir>)
    requires Inv(world, a, counter) && Resolved(world, a, r, m)
    ensures Dest(world, r, m) in a
    decreases |m|
  {
    if m != [] {
      var m' := m[..|m| - 1];
      ResolvedDest(world, a, counter, r, m');
      UseLinked(world, a, Dest(world, r, m'), m[|m| - 1]);
    }
  }

  lemma {:induction false} ResolvedGrow(world: World, a: Atlas, a2: Atlas, r: RoomId, m: seq<Dir>)
    requires Grows(a, a2) && Resolved(world, a, r, m)
    ensures Resolved(world, a2, r, m)
    decreases |m|
  {
    if m != [] {
      ResolvedGrow(world, a, a2, r, m[..|m| - 1]);
    }
  }

  lemma ReachesGrow(world: World, a: Atlas, a2: Atlas, x: RoomId, y: RoomId)
    requires Grows(a, a2) && Reaches(world, a, x, y)
    ensures Reaches(world, a2, x, y)
  {
    var m :| Resolved(world, a, x, m) && Dest(world, x, m) == y;
    ResolvedGrow(world, a, a2, x, m);
  }

  lemma ReachesTrans(world: World, a: Atlas, x: RoomId, y: RoomId, z: RoomId)
    requires Reaches(world, a, x, y) && Reaches(world, a, y, z)
    ensures Reaches(world, a, x, z)
  {
    var m :| Resolved(world, a, x, m) && Dest(world, x, m) == y;
    var n :| Resolved(world, a, y, n) && Dest(world, y, n) == z;
    ResolvedAppend(world, a, x, m, n);
    DestAppend(world, x, m, n);
  }

  /** One resolved exit is a walk of one move. */
  lemma ReachesStep(world: World, a: Atlas, x: RoomId, d: Dir)
    requires x in a && d in a[x] && a[x][d].To? && x in world && d in world[x]
    ensures Reaches(world, a, x, world[x][d])
  {
    var m := [d];
    assert m[..|m| - 1] == [] && m[|m| - 1] == d;
    assert Resolved(world, a, x, m[..|m| - 1]);
    assert Dest(world, x, m[..|m| - 1]) == x;
    assert Resolved(world, a, x, m);
    assert Dest(world, x, m) == world[x][d];
  }

  /**
   * A resolved walk to a room with a '?' exit has a prefix that
   * `_walk_back` would follow: either the whole walk is clear, or it meets a
   * room with a '?' exit earlier, by a clear prefix.
   */
  lemma {:induction false} ClearOrTarget(world: World, a: Atlas, counter: int, r: RoomId, m: seq<Dir>)
    requires Inv(world, a, counter) && Resolved(world, a, r, m)
    ensures Clear(world, a, r, m)
         || exists k :: 0 <= k < |m| && Clear(world, a, r, m[..k]) && IsTarget(a, Dest(world, r, m[..k]))
    decreases |m|
  {
    if m != [] {
      var m', d := m[..|m| - 1], m[|m| - 1];
      var p := Dest(world, r, m');
      ClearOrTarget(world, a, counter, r, m');
      if Clear(world, a, r, m') {
        if IsTarget(a, p) {
          assert m[..|m'|] == m';
        } else {
          UseLinked(world, a, p, d);
        }
      } else {
        var k :| 0 <= k < |m'| && Clear(world, a, r, m'[..k]) && IsTarget(a, Dest(world, r, m'[..k]));
        assert m[..k] == m'[..k];
      }
    }
  }

  /** If the atlas connects `r` to a room with a '?' exit, `_walk_back` from `r` has a walk to follow. */
  lemma SomeClearTarget(world: World, a: Atlas, counter: int, r: RoomId, y: RoomId)
    requires Inv(world, a, counter) && Reaches(world, a, r, y) && IsTarget(a, y)
    ensures exists m :: Goal(world, a, r, m)
  {
    var m :| Resolved(world, a, r, m) && Dest(world, r, m) == y;
    ClearOrTarget(world, a, counter, r, m);
    if Clear(world, a, r, m) {
      assert Goal(world, a, r, m);
    } else {
      var k :| 0 <= k < |m| && Clear(world, a, r, m[..k]) && IsTarget(a, Dest(world, r, m[..k]));
      assert Goal(world, a, r, m[..k]);
    }
  }

  /** Once no '?' is left, the recorded rooms are closed under every exit of the world. */
  lemma {:induction false} Covered(world: World, a: Atlas, counter: int, r: RoomId, m: seq<Dir>)
    requires Inv(world, a, counter) && r in a && Legal(world, r, m)
    requires forall x :: x in a ==> UnexploredDirs(a[x]) == {}
    ensures Dest(world, r, m) in a
    decreases |m|
  {
    if m != [] {
      var m' := m[..|m| - 1];
      Covered(world, a, counter, r, m');
      ResolvedExit(world, a, counter, Dest(world, r, m'), m[|m| - 1]);
    }
  }

  /** A crossing recorded in a walk stays recorded when the walk goes on. */
  lemma WalkedExtend(world: World, start: RoomId, p: seq<Dir>, q: seq<Dir>, x: RoomId, d: Dir)
    requires Walked(world, start, p, x, d)
    ensures Walked(world, start, p + q, x, d)
  {
    TraceAppend(world, start, p, q);
    var t := Trace(world, start, p);
    var i :| 0 <= i < |p| && ((t[i] == x && p[i] == d) || (t[i] == world[x][d] && p[i] == Opposite(d)));
    assert Trace(world, start, p + q)[i] == t[i] && (p + q)[i] == p[i];
  }
}
