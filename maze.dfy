/**
 * The fixed labyrinth, its coordinate system and the passability rules that
 * every mover consults.
 *
 * All lengths are in HALF-PIXELS, so that the tribute's speed of 1.5 pixels per
 * frame is the integer 3: a tile is 48 units wide, its centre sits 24 units in.
 */
module Maze {

  datatype Option<T> = None | Some(value: T)

  /** A tile coordinate (column, row). */
  type Tile = (int, int)

  /** A direction vector. The movers only ever hold zero or a unit cardinal vector. */
  datatype Vec = Vec(dx: int, dy: int)

  const Zero := Vec(0, 0)

  /** The four cardinal directions in the order the movers try them: right, left, down, up. */
  const Directions: seq<Vec> := [Vec(1, 0), Vec(-1, 0), Vec(0, 1), Vec(0, -1)]

  predicate IsCardinal(d: Vec) {
    d == Vec(1, 0) || d == Vec(-1, 0) || d == Vec(0, 1) || d == Vec(0, -1)
  }

  lemma DirectionsAreTheCardinals()
    ensures |Directions| == 4
    ensures forall k :: 0 <= k < 4 ==> IsCardinal(Directions[k])
    ensures forall d :: IsCardinal(d) ==> d in Directions
  {
  }

  function Reverse(d: Vec): Vec { Vec(-d.dx, -d.dy) }

  /** The tile one step from `t` in direction `d`. */
  function Step(t: Tile, d: Vec): Tile { (t.0 + d.dx, t.1 + d.dy) }

  /** 4-connected neighbourhood. */
  predicate Adjacent(a: Tile, b: Tile) {
    (b.1 == a.1 && (b.0 == a.0 + 1 || b.0 == a.0 - 1)) ||
    (b.0 == a.0 && (b.1 == a.1 + 1 || b.1 == a.1 - 1))
  }

  /** Tile size in pixels, as in the source. */
  const TilePx := 24
  /** Tile size and centre offset in half-pixels. */
  const TileSize := 2 * TilePx
  const Half := TileSize / 2

  const MapLayout: Layout := [
    "############################",
    "#............##............#",
    "#.####.#####.##.#####.####.#",
    "#o####.#####.##.#####.####o#",
    "#.####.#####.##.#####.####.#",
    "#..........................#",
    "#.####.##.########.##.####.#",
    "#.####.##.########.##.####.#",
    "#......##....##....##......#",
    "######.#####.##.#####.######",
    "     #.#####.##.#####.#     ",
    "     #.##..........##.#     ",
    "     #.##.###--###.##.#     ",
    "######.##.#      #.##.######",
    "G P   .   #   M  #   .     G",
    "######.##.#      #.##.######",
    "     #.##.########.##.#     ",
    "     #.##..........##.#     ",
    "     #.##.########.##.#     ",
    "######.##.########.##.######",
    "#............##............#",
    "#.####.#####.##.#####.####.#",
    "#.####.#####.##.#####.####.#",
    "#o..##................##..o#",
    "###.##.##.########.##.##.###",
    "###.##.##.########.##.##.###",
    "#......##....##....##......#",
    "#.##########.##.##########.#",
    "#.##########.##.##########.#",
    "#..........................#",
    "############################"
  ]

  /** ROWS and COLS of the source: the layout's height and the width of its first row. */
  const Rows := 31
  const Cols := 28

  /** A layout: one string per row, one character per tile. */
  type Layout = seq<string>

  /** The layout is a Rows x Cols rectangle. */
  lemma LayoutShape()
    ensures |MapLayout| == Rows && |MapLayout[0]| == Cols
    ensures forall r :: 0 <= r < Rows ==> |MapLayout[r]| == Cols
  {
  }

  predicate InBounds(x: int, y: int) {
    0 <= x < Cols && 0 <= y < Rows
  }

  /**
   * MAP_LAYOUT[y][x] for an in-bounds tile of the layout; anything outside
   * the layout reads as wall. Every member below takes the layout as a
   * parameter and the game passes MapLayout, so that the movers' proofs hold
   * for any layout (LayoutLookup gives the character of the real one).
   */
  function TileAt(layout: Layout, x: int, y: int): char {
    if InBounds(x, y) && y < |layout| && x < |layout[y]| then layout[y][x] else '#'
  }

  /** On the game's layout an in-bounds lookup is the character at that row and column. */
  lemma LayoutLookup(x: int, y: int)
    requires InBounds(x, y)
    ensures TileAt(MapLayout, x, y) == MapLayout[y][x]
  {
    LayoutShape();
  }

  /**
   * Minotaur.can_move_to: out-of-bounds and walls block, a gate blocks until
   * the gates are open, every other character is passable.
   */
  predicate CanMoveTo(layout: Layout, nx: int, ny: int, gatesOpen: bool) {
    if !InBounds(nx, ny) then false
    else if TileAt(layout, nx, ny) == '#' then false
    else if TileAt(layout, nx, ny) == 'G' && !gatesOpen then false
    else true
  }

  /**
   * Player.can_move and Human.can_move: a zero direction is never a move;
   * otherwise the tile one step away must be in bounds, not a wall, and not a
   * closed gate.
   */
  predicate CanMove(layout: Layout, tx: int, ty: int, d: Vec, gatesOpen: bool) {
    if d.dx == 0 && d.dy == 0 then false
    else
      var nx := tx + d.dx;
      var ny := ty + d.dy;
      if !InBounds(nx, ny) then false
      else
        var tile := TileAt(layout, nx, ny);
        if tile == '#' then false
        else if tile == 'G' && !gatesOpen then false
        else true
  }

  /** The two legality checks of the source agree: a mover's `can_move` is `can_move_to` of the target tile. */
  lemma CanMoveIsCanMoveTo(layout: Layout, tx: int, ty: int, d: Vec, gatesOpen: bool)
    ensures CanMove(layout, tx, ty, d, gatesOpen) <==> d != Zero && CanMoveTo(layout, tx + d.dx, ty + d.dy, gatesOpen)
  {
  }

  /** The full case analysis of can_move: each blocking reason, and passable in every other case. */
  lemma CanMoveCases(layout: Layout, tx: int, ty: int, d: Vec, gatesOpen: bool)
    ensures d == Zero ==> !CanMove(layout, tx, ty, d, gatesOpen)
    ensures !InBounds(tx + d.dx, ty + d.dy) ==> !CanMove(layout, tx, ty, d, gatesOpen)
    ensures TileAt(layout, tx + d.dx, ty + d.dy) == '#' ==> !CanMove(layout, tx, ty, d, gatesOpen)
    ensures TileAt(layout, tx + d.dx, ty + d.dy) == 'G' && !gatesOpen ==> !CanMove(layout, tx, ty, d, gatesOpen)
    ensures d != Zero && InBounds(tx + d.dx, ty + d.dy) && TileAt(layout, tx + d.dx, ty + d.dy) !in {'#', 'G'} ==>
      CanMove(layout, tx, ty, d, gatesOpen)
    ensures d != Zero && InBounds(tx + d.dx, ty + d.dy) && TileAt(layout, tx + d.dx, ty + d.dy) == 'G' && gatesOpen ==>
      CanMove(layout, tx, ty, d, gatesOpen)
  {
    CanMoveIsCanMoveTo(layout, tx, ty, d, gatesOpen);
  }

  /** Opening the gates never makes a tile impassable, and only gate tiles become passable. */
  lemma OpeningGatesOnlyAdds(layout: Layout, nx: int, ny: int)
    ensures CanMoveTo(layout, nx, ny, false) ==> CanMoveTo(layout, nx, ny, true)
    ensures CanMoveTo(layout, nx, ny, true) && !CanMoveTo(layout, nx, ny, false) ==> TileAt(layout, nx, ny) == 'G'
  {
  }

  /** A tile a mover may stand on: inside the layout and not a wall. */
  predicate OnFloor(layout: Layout, t: Tile) {
    InBounds(t.0, t.1) && TileAt(layout, t.0, t.1) != '#'
  }

  /** With the gates open, the passable tiles are exactly the non-wall tiles. */
  lemma OpenPassableIsFloor(layout: Layout, t: Tile)
    ensures CanMoveTo(layout, t.0, t.1, true) <==> OnFloor(layout, t)
  {
  }

  /** A passable tile is in bounds and not a wall, whatever the gate flag. */
  lemma PassableIsFloor(layout: Layout, nx: int, ny: int, gatesOpen: bool)
    requires CanMoveTo(layout, nx, ny, gatesOpen)
    ensures OnFloor(layout, (nx, ny))
  {
  }

  /** The pixel (half-pixel) coordinate of the centre of tile `t`. */
  function Centre(t: int): int { t * TileSize + Half }

  /** at_tile_center: both offsets from a tile centre are multiples of the tile size. */
  predicate AtTileCenter(x: int, y: int) {
    (x - Half) % TileSize == 0 && (y - Half) % TileSize == 0
  }

  /** The tile re-synchronisation of the update methods (floor division). */
  function TileOf(p: int): int { (p - Half) / TileSize }

  /** Moving a whole number of tiles changes neither the offset within a tile nor anything but the tile index. */
  lemma ShiftByTiles(t: int, a: int)
    ensures (t * TileSize + a) % TileSize == a % TileSize
    ensures (t * TileSize + a) / TileSize == t + a / TileSize
  {
  }

  /** At a tile centre the floor division of the update methods recovers the tile exactly. */
  lemma TileOfCentre(t: int)
    ensures AtTileCenter(Centre(t), Centre(t))
    ensures TileOf(Centre(t)) == t
  {
  }
}
