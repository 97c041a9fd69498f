/**
 * The goals the Minotaur's pathfinder is given: while fleeing, the non-wall
 * tile farthest from the player (found by a row-major scan of the layout);
 * otherwise the player's and the tributes' tiles.
 */
module Flee {
  import opened Maze
  import opened Pathfinding

  /**
   * n squared, as the sum of the first |n| odd numbers: the same value as
   * n * n (SquareIsProduct) without a product for the solver to reason about.
   */
  function Square(n: int): nat
    decreases if n < 0 then 1 - n else n
  {
    if n < 0 then Square(-n) else if n == 0 then 0 else Square(n - 1) + 2 * n - 1
  }

  lemma {:induction false} SquareIsProduct(n: int)
    ensures Square(n) == n * n
    decreases if n < 0 then 1 - n else n
  {
    if n < 0 {
      SquareIsProduct(-n);
    } else if n > 0 {
      SquareIsProduct(n - 1);
    }
  }

  /** Squared Euclidean distance in tiles, the quantity the flee search maximises. */
  function SqDist(t: Tile, p: Tile): nat {
    Square(t.0 - p.0) + Square(t.1 - p.1)
  }

  /** Position of a tile in the row-major order in which the flee search scans the layout. */
  function RowMajor(t: Tile): int { t.1 * Cols + t.0 }

  /**
   * The tile the fleeing Minotaur runs to, among the tiles of `floor` (the
   * non-wall tiles): one at maximum squared distance from the player, the
   * first such in row-major order (the search replaces its best only on a
   * strictly greater distance).
   */
  ghost predicate IsFleeGoal(t: Tile, player: Tile, floor: set<Tile>) {
    t in floor &&
    (forall u :: u in floor ==> SqDist(u, player) <= SqDist(t, player)) &&
    (forall u :: u in floor && RowMajor(u) < RowMajor(t) ==> SqDist(u, player) < SqDist(t, player))
  }

  /** At most one tile is the flee goal, since row-major positions of distinct maze tiles differ. */
  lemma FleeGoalUnique(a: Tile, b: Tile, player: Tile, floor: set<Tile>)
    requires PassableInBounds(floor)
    requires IsFleeGoal(a, player, floor) && IsFleeGoal(b, player, floor)
    ensures a == b
  {
    if RowMajor(a) == RowMajor(b) {
      RowMajorInjective(a, b.0, b.1);
    }
  }

  /** The flee goal, if `floor` is not empty; the maze's non-wall tiles are Walkable(true). */
  ghost function FleeTarget(player: Tile, floor: set<Tile>): (r: Option<Tile>)
    ensures r.Some? ==> IsFleeGoal(r.value, player, floor)
    ensures r.None? ==> forall t :: !IsFleeGoal(t, player, floor)
  {
    if exists t :: IsFleeGoal(t, player, floor) then
      var t :| IsFleeGoal(t, player, floor);
      Some(t)
    else
      None
  }

  /**
   * The goal set of Minotaur.update: the flee goal while fleeing (the
   * player's tile if there is none), otherwise the player's tile and every
   * tribute's tile.
   */
  ghost function MinotaurGoals(layout: Layout, flee: bool, player: Tile, humans: set<Tile>): set<Tile> {
    if flee then
      match FleeTarget(player, Walkable(layout, true))
      case Some(t) => {t}
      case None => {player}
    else
      {player} + humans
  }

  /** Loop invariant of the flee search after the first n tiles in row-major order. */
  ghost predicate Scanned(best: Option<Tile>, bestDist: int, player: Tile, n: int, floor: set<Tile>) {
    (best.None? <==> bestDist == -1) &&
    (best.None? ==> forall u :: u in floor ==> n <= RowMajor(u)) &&
    (best.Some? ==>
      best.value in floor && RowMajor(best.value) < n && bestDist == SqDist(best.value, player) &&
      (forall u :: u in floor && RowMajor(u) < n ==> SqDist(u, player) <= bestDist) &&
      (forall u :: u in floor && RowMajor(u) < RowMajor(best.value) ==> SqDist(u, player) < bestDist))
  }

  /** Distinct tiles of the layout have distinct row-major positions. */
  lemma RowMajorInjective(u: Tile, x: int, y: int)
    requires InBounds(u.0, u.1) && InBounds(x, y)
    ensures RowMajor(u) == RowMajor((x, y)) <==> u == (x, y)
    ensures 0 <= RowMajor(u) < Rows * Cols
  {
    if u.1 < y {
      assert RowMajor(u) < u.1 * Cols + Cols <= y * Cols;
    } else if y < u.1 {
      assert RowMajor((x, y)) < y * Cols + Cols <= u.1 * Cols;
    }
  }

  /** The tiles of `floor` scanned before the tile (x, y) and up to it. */
  lemma ScanPrefix(x: int, y: int, floor: set<Tile>)
    requires InBounds(x, y) && PassableInBounds(floor)
    ensures forall u :: u in floor && RowMajor(u) < RowMajor((x, y)) + 1 ==>
      u == (x, y) || RowMajor(u) < RowMajor((x, y))
  {
    forall u | u in floor && RowMajor(u) < RowMajor((x, y)) + 1
      ensures u == (x, y) || RowMajor(u) < RowMajor((x, y))
    {
      RowMajorInjective(u, x, y);
    }
  }

  /** A wall tile, or a floor tile no farther than the best so far, leaves the best unchanged. */
  lemma ScanKeep(best: Option<Tile>, bestDist: int, player: Tile, x: int, y: int, floor: set<Tile>)
    requires InBounds(x, y) && PassableInBounds(floor)
    requires Scanned(best, bestDist, player, RowMajor((x, y)), floor)
    requires (x, y) in floor ==> SqDist((x, y), player) <= bestDist
    ensures Scanned(best, bestDist, player, RowMajor((x, y)) + 1, floor)
  {
    ScanPrefix(x, y, floor);
  }

  /** A floor tile strictly farther than the best so far becomes the best. */
  lemma ScanReplace(best: Option<Tile>, bestDist: int, player: Tile, x: int, y: int, floor: set<Tile>)
    requires InBounds(x, y) && PassableInBounds(floor)
    requires Scanned(best, bestDist, player, RowMajor((x, y)), floor)
    requires (x, y) in floor && SqDist((x, y), player) > bestDist
    ensures Scanned(Some((x, y)), SqDist((x, y), player), player, RowMajor((x, y)) + 1, floor)
  {
    ScanPrefix(x, y, floor);
  }

  /** After the whole layout has been scanned, the best tile is the flee goal. */
  lemma ScanComplete(best: Option<Tile>, bestDist: int, player: Tile, floor: set<Tile>)
    requires PassableInBounds(floor)
    requires Scanned(best, bestDist, player, Rows * Cols, floor)
    ensures best == FleeTarget(player, floor)
    ensures best.None? <==> floor == {}
  {
    forall u | u in floor ensures RowMajor(u) < Rows * Cols {
      RowMajorInjective(u, 0, 0);
    }
    if best.Some? {
      var t := FleeTarget(player, floor);
      assert IsFleeGoal(best.value, player, floor);
      FleeGoalUnique(best.value, t.value, player, floor);
    }
  }

  /**
   * The flee search of Minotaur.update: scan the layout row by row, skip
   * walls, and keep the first tile of strictly greatest squared distance from
   * the player. None exactly when the layout has no non-wall tile.
   */
  method FleeGoal(layout: Layout, player: Tile) returns (best: Option<Tile>)
    ensures best == FleeTarget(player, Walkable(layout, true))
    ensures best.None? <==> forall t :: !OnFloor(layout, t)
  {
    ghost var floor := Walkable(layout, true);
    best := None;
    var bestDist := -1;
    for y := 0 to Rows
      invariant Scanned(best, bestDist, player, y * Cols, floor)
    {
      for x := 0 to Cols
        invariant Scanned(best, bestDist, player, y * Cols + x, floor)
      {
        OpenPassableIsFloor(layout, (x, y));
        if TileAt(layout, x, y) != '#' {
          var dx := x - player.0;
          var dy := y - player.1;
          var dist := dx * dx + dy * dy;
          SquareIsProduct(dx);
          SquareIsProduct(dy);
          assert dist == SqDist((x, y), player);
          if dist > bestDist {
            ScanReplace(best, bestDist, player, x, y, floor);
            bestDist := dist;
            best := Some((x, y));
          } else {
            ScanKeep(best, bestDist, player, x, y, floor);
          }
        } else {
          ScanKeep(best, bestDist, player, x, y, floor);
        }
      }
    }
    ScanComplete(best, bestDist, player, floor);
    if best.Some? {
      OpenPassableIsFloor(layout, best.value);
    } else {
      forall t ensures !OnFloor(layout, t) {
        OpenPassableIsFloor(layout, t);
      }
    }
  }
}
