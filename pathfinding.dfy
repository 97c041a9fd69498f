/**
 * The Minotaur's pathfinder: a breadth-first search over the 4-connected maze
 * that stops at the first goal it dequeues, the walk back along the parent
 * pointers to the first step, and the two ways of choosing goals (hunting the
 * player and the tributes, or fleeing to the tile farthest from the player).
 */
module Pathfinding {
  import opened Maze

  /** One hop of a walk: into a 4-neighbour that can be entered. */
  ghost predicate Link(a: Tile, b: Tile, passable: set<Tile>) {
    Adjacent(a, b) && b in passable
  }

  /** A walk through the maze; its hop count is |p| - 1. The first tile need not be passable. */
  ghost predicate IsPath(p: seq<Tile>, passable: set<Tile>)
    decreases |p|
  {
    |p| >= 1 && (|p| >= 2 ==> Link(p[0], p[1], passable) && IsPath(p[1..], passable))
  }

  ghost predicate IsGoalPath(p: seq<Tile>, start: Tile, goals: set<Tile>, passable: set<Tile>) {
    IsPath(p, passable) && p[0] == start && p[|p| - 1] in goals
  }

  ghost predicate IsShortestGoalPath(p: seq<Tile>, start: Tile, goals: set<Tile>, passable: set<Tile>) {
    IsGoalPath(p, start, goals, passable) &&
    forall q :: IsGoalPath(q, start, goals, passable) ==> |p| <= |q|
  }

  ghost predicate GoalReachable(start: Tile, goals: set<Tile>, passable: set<Tile>) {
    exists p :: IsGoalPath(p, start, goals, passable)
  }

  /**
   * What the Minotaur's new direction must be: zero exactly when it already
   * stands on a goal or no goal can be reached; otherwise a unit step onto a
   * passable neighbour that begins a walk of minimum hop count to a goal.
   */
  ghost predicate IsNextStep(start: Tile, goals: set<Tile>, passable: set<Tile>, dir: Vec) {
    (dir == Zero <==> start in goals || !GoalReachable(start, goals, passable)) &&
    (dir != Zero ==>
      IsCardinal(dir) && Step(start, dir) in passable &&
      exists p :: IsShortestGoalPath(p, start, goals, passable) && |p| >= 2 && p[1] == Step(start, dir))
  }

  /** Every in-bounds tile: the tiles BFS can ever enqueue besides the start. */
  function AllTiles(): set<Tile> {
    set x, y | 0 <= x < Cols && 0 <= y < Rows :: (x, y)
  }

  /** Only maze tiles can be entered (as Minotaur.can_move_to guarantees). */
  predicate PassableInBounds(passable: set<Tile>) {
    passable <= AllTiles()
  }

  /**
   * The search tree recorded in came_from: the start has no parent, every
   * other tile was entered from its parent in one hop, one level deeper.
   */
  ghost predicate IsBfsTree(cameFrom: map<Tile, Option<Tile>>, depth: map<Tile, nat>, start: Tile, passable: set<Tile>) {
    cameFrom.Keys == depth.Keys &&
    start in cameFrom && cameFrom[start] == None && depth[start] == 0 &&
    forall t {:trigger cameFrom[t]} :: t in cameFrom && t != start ==>
      cameFrom[t].Some? && cameFrom[t].value in cameFrom &&
      Link(cameFrom[t].value, t, passable) && depth[t] == depth[cameFrom[t].value] + 1
  }

  lemma DepthZeroIsStart(cameFrom: map<Tile, Option<Tile>>, depth: map<Tile, nat>, start: Tile, passable: set<Tile>, t: Tile)
    requires IsBfsTree(cameFrom, depth, start, passable)
    requires t in depth && depth[t] == 0
    ensures t == start
  {
  }

  /**
   * The heart of BFS correctness: if every expanded ("done") tile has all its
   * passable neighbours recorded at most one level deeper, and every recorded
   * tile shallower than `front` is done, then a walk that starts on a recorded
   * tile of depth at most `d` and takes fewer than `front - d` hops stays on
   * done tiles.
   */
  lemma {:induction false} WalkStaysInDone(p: seq<Tile>, d: int, depth: map<Tile, nat>, done: set<Tile>, front: int, passable: set<Tile>)
    requires IsPath(p, passable)
    requires p[0] in depth && depth[p[0]] <= d
    requires done <= depth.Keys
    requires forall u, v :: u in done && Link(u, v, passable) ==> v in depth && depth[v] <= depth[u] + 1
    requires forall t :: t in depth && depth[t] < front ==> t in done
    requires d + |p| <= front
    ensures forall i :: 0 <= i < |p| ==> p[i] in done
    decreases |p|
  {
    assert p[0] in done;
    if |p| >= 2 {
      WalkStaysInDone(p[1..], d + 1, depth, done, front, passable);
      forall i | 1 <= i < |p| ensures p[i] in done {
        assert p[i] == p[1..][i - 1];
      }
    }
  }

  /** The queue holds recorded tiles in non-decreasing depth order. */
  ghost predicate SortedByDepth(queue: seq<Tile>, depth: map<Tile, nat>) {
    (forall t :: t in queue ==> t in depth) &&
    forall i, j :: 0 <= i < j < |queue| ==> depth[queue[i]] <= depth[queue[j]]
  }

  /** Every passable neighbour of an expanded tile is recorded at most one level deeper. */
  ghost predicate Closed(done: set<Tile>, depth: map<Tile, nat>, passable: set<Tile>) {
    done <= depth.Keys &&
    forall u, v :: u in done && Link(u, v, passable) ==> v in depth && depth[v] <= depth[u] + 1
  }

  lemma SortedHead(queue: seq<Tile>, depth: map<Tile, nat>)
    requires queue != [] && SortedByDepth(queue, depth)
    ensures forall t :: t in queue ==> depth[queue[0]] <= depth[t]
  {
    forall t | t in queue ensures depth[queue[0]] <= depth[t] {
      var j :| 0 <= j < |queue| && queue[j] == t;
      if j > 0 {
        assert depth[queue[0]] <= depth[queue[j]];
      }
    }
  }

  /**
   * The goal dequeued first is a nearest one: every tile shallower than it has
   * already been expanded, and a shorter walk to a goal would have to end on
   * an expanded tile, which is never a goal.
   */
  lemma NearestGoal(c: Tile, rest: seq<Tile>, depth: map<Tile, nat>, done: set<Tile>, start: Tile, goals: set<Tile>, passable: set<Tile>)
    requires start in depth && depth[start] == 0 && c in depth
    requires forall t :: t in depth ==> t in done || t == c || t in rest
    requires forall t :: t in rest ==> t in depth && depth[c] <= depth[t]
    requires Closed(done, depth, passable)
    requires forall t :: t in done ==> t !in goals
    ensures forall p :: IsGoalPath(p, start, goals, passable) ==> depth[c] <= |p| - 1
  {
    forall p | IsGoalPath(p, start, goals, passable) ensures depth[c] <= |p| - 1 {
      if |p| - 1 < depth[c] {
        WalkStaysInDone(p, 0, depth, done, depth[c], passable);
      }
    }
  }

  /** Once every recorded tile is expanded and none is a goal, no goal can be reached. */
  lemma NoGoalReachable(depth: map<Tile, nat>, done: set<Tile>, start: Tile, goals: set<Tile>, passable: set<Tile>)
    requires start in done && depth.Keys <= done
    requires Closed(done, depth, passable)
    requires forall t :: t in done ==> t !in goals
    ensures !GoalReachable(start, goals, passable)
  {
    forall p | IsGoalPath(p, start, goals, passable) ensures false {
      WalkStaysInDone(p, depth[start], depth, done, depth[start] + |p|, passable);
    }
  }

  /**
   * How the search data may change while `c` is expanded: the tree stays a
   * BFS tree and only grows by passable tiles, recorded depths never change,
   * the queue only grows and only by new tiles, stays ordered, and spans the
   * levels of `c` and the one below.
   */
  ghost predicate Extends(c: Tile, cameFrom0: map<Tile, Option<Tile>>, depth0: map<Tile, nat>, queue0: seq<Tile>,
                          cameFrom: map<Tile, Option<Tile>>, depth: map<Tile, nat>, queue: seq<Tile>,
                          start: Tile, passable: set<Tile>) {
    IsBfsTree(cameFrom, depth, start, passable) &&
    c in depth0 &&
    cameFrom0.Keys <= cameFrom.Keys && cameFrom.Keys - cameFrom0.Keys <= passable &&
    (forall t :: t in depth0 ==> t in depth && depth[t] == depth0[t]) &&
    (cameFrom.Keys == cameFrom0.Keys ==> queue == queue0) &&
    (forall t :: t in queue0 ==> t in queue) &&
    (forall t :: t in cameFrom ==> t in cameFrom0 || t in queue) &&
    SortedByDepth(queue, depth) &&
    (forall t :: t in queue ==> depth0[c] <= depth[t] <= depth0[c] + 1) &&
    (forall t :: t in depth ==> depth[t] <= depth0[c] + 1)
  }

  lemma ExtendsSelf(c: Tile, cameFrom0: map<Tile, Option<Tile>>, depth0: map<Tile, nat>, queue0: seq<Tile>,
                    cameFrom: map<Tile, Option<Tile>>, depth: map<Tile, nat>, queue: seq<Tile>,
                    start: Tile, passable: set<Tile>)
    requires Extends(c, cameFrom0, depth0, queue0, cameFrom, depth, queue, start, passable)
    ensures Extends(c, cameFrom, depth, queue, cameFrom, depth, queue, start, passable)
  {
  }

  lemma ExtendsTransitive(c: Tile, cameFrom0: map<Tile, Option<Tile>>, depth0: map<Tile, nat>, queue0: seq<Tile>,
                          cameFrom1: map<Tile, Option<Tile>>, depth1: map<Tile, nat>, queue1: seq<Tile>,
                          cameFrom2: map<Tile, Option<Tile>>, depth2: map<Tile, nat>, queue2: seq<Tile>,
                          start: Tile, passable: set<Tile>)
    requires Extends(c, cameFrom0, depth0, queue0, cameFrom1, depth1, queue1, start, passable)
    requires Extends(c, cameFrom1, depth1, queue1, cameFrom2, depth2, queue2, start, passable)
    ensures Extends(c, cameFrom0, depth0, queue0, cameFrom2, depth2, queue2, start, passable)
  {
  }

  /** A passable tile `n` is recorded at most one level below `c`. */
  ghost predicate Recorded(c: Tile, n: Tile, cameFrom: map<Tile, Option<Tile>>, depth: map<Tile, nat>, passable: set<Tile>) {
    c in depth && (n in passable ==> n in cameFrom && n in depth && depth[n] <= depth[c] + 1)
  }

  /** The neighbours in the first k directions are recorded. */
  ghost predicate RecordedUpTo(c: Tile, k: int, cameFrom: map<Tile, Option<Tile>>, depth: map<Tile, nat>, passable: set<Tile>) {
    (k > 0 ==> Recorded(c, Step(c, Directions[0]), cameFrom, depth, passable)) &&
    (k > 1 ==> Recorded(c, Step(c, Directions[1]), cameFrom, depth, passable)) &&
    (k > 2 ==> Recorded(c, Step(c, Directions[2]), cameFrom, depth, passable)) &&
    (k > 3 ==> Recorded(c, Step(c, Directions[3]), cameFrom, depth, passable))
  }

  /** The four directions reach every 4-neighbour. */
  lemma AllNeighboursRecorded(c: Tile, cameFrom: map<Tile, Option<Tile>>, depth: map<Tile, nat>, passable: set<Tile>)
    requires c in depth
    requires RecordedUpTo(c, 4, cameFrom, depth, passable)
    ensures forall v :: Link(c, v, passable) ==> v in cameFrom && v in depth && depth[v] <= depth[c] + 1
  {
    forall v | Link(c, v, passable) ensures v in cameFrom && v in depth && depth[v] <= depth[c] + 1 {
      assert v == Step(c, Directions[0]) || v == Step(c, Directions[1]) ||
             v == Step(c, Directions[2]) || v == Step(c, Directions[3]);
    }
  }

  /**
   * Turn `k` of the neighbour loop: the neighbour `n` of `c` in direction k
   * is recorded with parent `c` and appended to the queue when it is not yet
   * in came_from and can be entered; otherwise nothing changes.
   */
  method Visit(c: Tile, k: nat, cameFrom0: map<Tile, Option<Tile>>, ghost depth0: map<Tile, nat>, queue0: seq<Tile>,
               ghost start: Tile, passable: set<Tile>)
    returns (cameFrom: map<Tile, Option<Tile>>, ghost depth: map<Tile, nat>, queue: seq<Tile>)
    requires k < 4
    requires Extends(c, cameFrom0, depth0, queue0, cameFrom0, depth0, queue0, start, passable)
    ensures Extends(c, cameFrom0, depth0, queue0, cameFrom, depth, queue, start, passable)
    ensures cameFrom.Keys <= cameFrom0.Keys + {Step(c, Directions[k])}
    ensures Recorded(c, Step(c, Directions[k]), cameFrom, depth, passable)
    ensures forall m :: Recorded(c, m, cameFrom0, depth0, passable) ==> Recorded(c, m, cameFrom, depth, passable)
    ensures if Step(c, Directions[k]) in cameFrom0 || Step(c, Directions[k]) !in passable
            then cameFrom == cameFrom0 && queue == queue0
            else cameFrom == cameFrom0[Step(c, Directions[k]) := Some(c)] && queue == queue0 + [Step(c, Directions[k])]
  {
    var n := Step(c, Directions[k]);
    cameFrom, depth, queue := cameFrom0, depth0, queue0;
    if n in cameFrom || n !in passable {
      return;
    }
    assert Link(c, n, passable);
    cameFrom := cameFrom[n := Some(c)];
    depth := depth[n := depth[c] + 1];
    queue := queue + [n];
  }

  /**
   * The neighbour loop of the search: each direction in turn, right, left,
   * down, up; afterwards every passable neighbour of `c` is recorded at most
   * one level below it.
   */
  method Expand(c: Tile, cameFrom0: map<Tile, Option<Tile>>, ghost depth0: map<Tile, nat>, queue0: seq<Tile>,
                ghost start: Tile, passable: set<Tile>)
    returns (cameFrom: map<Tile, Option<Tile>>, ghost depth: map<Tile, nat>, queue: seq<Tile>)
    requires Extends(c, cameFrom0, depth0, queue0, cameFrom0, depth0, queue0, start, passable)
    ensures Extends(c, cameFrom0, depth0, queue0, cameFrom, depth, queue, start, passable)
    ensures forall v :: Link(c, v, passable) ==> v in cameFrom && depth[v] <= depth[c] + 1
  {
    cameFrom, depth, queue := cameFrom0, depth0, queue0;
    for k := 0 to 4
      invariant Extends(c, cameFrom0, depth0, queue0, cameFrom, depth, queue, start, passable)
      invariant RecordedUpTo(c, k, cameFrom, depth, passable)
    {
      ghost var cameFrom1, depth1, queue1 := cameFrom, depth, queue;
      ExtendsSelf(c, cameFrom0, depth0, queue0, cameFrom1, depth1, queue1, start, passable);
      cameFrom, depth, queue := Visit(c, k, cameFrom, depth, queue, start, passable);
      ExtendsTransitive(c, cameFrom0, depth0, queue0, cameFrom1, depth1, queue1, cameFrom, depth, queue, start, passable);
    }
    AllNeighboursRecorded(c, cameFrom, depth, passable);
  }

  /**
   * What holds between two dequeues: a BFS tree, a queue ordered by depth and
   * spanning at most two levels, every recorded tile either expanded ("done")
   * or waiting, expanded tiles closed and no shallower than the queue's head,
   * and no expanded tile a goal.
   */
  ghost predicate SearchState(cameFrom: map<Tile, Option<Tile>>, depth: map<Tile, nat>, queue: seq<Tile>, done: set<Tile>,
                              start: Tile, goals: set<Tile>, passable: set<Tile>) {
    IsBfsTree(cameFrom, depth, start, passable) &&
    SortedByDepth(queue, depth) &&
    Closed(done, depth, passable) &&
    (queue != [] ==>
      (forall t :: t in queue ==> depth[t] <= depth[queue[0]] + 1) &&
      (forall t :: t in done ==> depth[t] <= depth[queue[0]])) &&
    (forall t :: t in cameFrom ==> t in done || t in queue) &&
    (forall t :: t in done ==> t !in goals) &&
    (queue == [] ==> start in done)
  }

  /** Expanding the head of the queue, when it is not a goal, keeps the search state. */
  lemma SearchStep(queue0: seq<Tile>, cameFrom0: map<Tile, Option<Tile>>, depth0: map<Tile, nat>, done: set<Tile>,
                   cameFrom: map<Tile, Option<Tile>>, depth: map<Tile, nat>, queue: seq<Tile>,
                   start: Tile, goals: set<Tile>, passable: set<Tile>)
    requires queue0 != [] && queue0[0] !in goals
    requires SearchState(cameFrom0, depth0, queue0, done, start, goals, passable)
    requires Extends(queue0[0], cameFrom0, depth0, queue0[1..], cameFrom, depth, queue, start, passable)
    requires forall v :: Link(queue0[0], v, passable) ==> v in cameFrom && depth[v] <= depth[queue0[0]] + 1
    ensures SearchState(cameFrom, depth, queue, done + {queue0[0]}, start, goals, passable)
  {
    var c := queue0[0];
    SortedHead(queue0, depth0);
    forall u, v | u in done + {c} && Link(u, v, passable) ensures v in depth && depth[v] <= depth[u] + 1 {
      if u != c {
        assert v in depth0;
      }
    }
    if queue != [] {
      assert depth[c] <= depth[queue[0]];
    }
  }

  /**
   * The breadth-first search of Minotaur.update (main.py) / the cameFrom loop
   * (sketch.js): neighbours in the order right, left, down, up; a tile is
   * enqueued at most once; the search stops at the first goal dequeued.
   * The goal reached is one of minimum hop count; no reached goal means that
   * no goal can be reached at all.
   */
  method Bfs(start: Tile, goals: set<Tile>, passable: set<Tile>)
    returns (reached: Option<Tile>, cameFrom: map<Tile, Option<Tile>>, ghost depth: map<Tile, nat>)
    requires PassableInBounds(passable)
    ensures IsBfsTree(cameFrom, depth, start, passable)
    ensures reached.Some? ==>
      reached.value in goals && reached.value in cameFrom &&
      forall p :: IsGoalPath(p, start, goals, passable) ==> depth[reached.value] <= |p| - 1
    ensures reached.None? ==> !GoalReachable(start, goals, passable)
  {
    var queue := [start];
    cameFrom := map[start := None];
    depth := map[start := 0];
    ghost var done: set<Tile> := {};
    reached := None;

    while queue != []
      invariant SearchState(cameFrom, depth, queue, done, start, goals, passable)
      decreases AllTiles() - cameFrom.Keys, |queue|
    {
      SortedHead(queue, depth);
      var c := queue[0];
      var rest := queue[1..];
      if c in goals {
        forall t | t in depth ensures t in done || t == c || t in rest {
          if t !in done && t != c {
            var j :| 0 <= j < |queue| && queue[j] == t;
            assert rest[j - 1] == t;
          }
        }
        NearestGoal(c, rest, depth, done, start, goals, passable);
        reached := Some(c);
        break;
      }
      ghost var queue0, cameFrom0, depth0 := queue, cameFrom, depth;
      cameFrom, depth, queue := Expand(c, cameFrom, depth, rest, start, passable);
      SearchStep(queue0, cameFrom0, depth0, done, cameFrom, depth, queue, start, goals, passable);
      done := done + {c};
    }

    if reached.None? {
      NoGoalReachable(depth, done, start, goals, passable);
    }
  }

  /**
   * Once the walk back along the parent pointers has reached the tile whose
   * parent is the start, prefixing the start gives a shortest walk to the goal.
   */
  lemma FirstStepOfShortestPath(walk: seq<Tile>, start: Tile, goal: Tile, goals: set<Tile>,
                                depth: map<Tile, nat>, passable: set<Tile>)
    requires IsPath(walk, passable) && walk[|walk| - 1] == goal && goal in goals
    requires Link(start, walk[0], passable)
    requires goal in depth && |walk| == depth[goal]
    requires forall p :: IsGoalPath(p, start, goals, passable) ==> depth[goal] <= |p| - 1
    ensures IsShortestGoalPath([start] + walk, start, goals, passable)
  {
    var p := [start] + walk;
    assert p[1..] == walk;
  }

  /**
   * Minotaur.update's choice of direction: run the search, then follow the
   * parent pointers back from the goal reached to the tile whose parent is the
   * start, and step towards it; stop if the start is a goal or no goal is reached.
   */
  method NextStep(start: Tile, goals: set<Tile>, passable: set<Tile>) returns (dir: Vec)
    requires PassableInBounds(passable)
    ensures IsNextStep(start, goals, passable, dir)
  {
    var reached, cameFrom, depth := Bfs(start, goals, passable);
    if reached.Some? && reached.value != start {
      var goal := reached.value;
      if start in goals {
        assert IsGoalPath([start], start, goals, passable);
        DepthZeroIsStart(cameFrom, depth, start, passable, goal);
      }
      var current := goal;
      ghost var walk := [current];
      while cameFrom[current] != Some(start)
        invariant IsBfsTree(cameFrom, depth, start, passable)
        invariant current in cameFrom && current != start
        invariant IsPath(walk, passable) && walk[0] == current && walk[|walk| - 1] == goal
        invariant |walk| - 1 == depth[goal] - depth[current]
        decreases depth[current]
      {
        var parent := cameFrom[current].value;
        assert Link(parent, current, passable);
        current := parent;
        assert ([current] + walk)[1..] == walk;
        walk := [current] + walk;
      }
      assert Link(start, current, passable);
      FirstStepOfShortestPath(walk, start, goal, goals, depth, passable);
      dir := Vec(current.0 - start.0, current.1 - start.1);
      assert current == Step(start, dir);
      assert ([start] + walk)[1] == current;
    } else {
      dir := Zero;
    }
  }

  /** Minotaur.can_move_to as the set of enterable tiles, the form the search consumes. */
  function Walkable(layout: Layout, gatesOpen: bool): (r: set<Tile>)
    ensures PassableInBounds(r)
    ensures forall t :: t in r <==> CanMoveTo(layout, t.0, t.1, gatesOpen)
  {
    set x, y | 0 <= x < Cols && 0 <= y < Rows && CanMoveTo(layout, x, y, gatesOpen) :: (x, y)
  }
}
