/**
 * The three kinds of mover: Theseus (the player), the wandering tributes and
 * the Minotaur. Each keeps a pixel position, the tile it was last centred on
 * and a direction; it may change direction only at a tile centre and
 * otherwise keeps sliding at its own speed. Positions are in half-pixels.
 */
module Movers {
  import opened Maze
  import opened Geometry
  import opened Pathfinding
  import opened Flee

  /** Speeds in half-pixels per frame: 4, 1.5 and 3 pixels. Each divides the tile size. */
  const PlayerSpeed := 8
  const HumanSpeed := 3
  const MinotaurSpeed := 6

  /** Collision squares: one tile for Theseus and the tributes, MINOTAUR_SIZE (three tiles) for the Minotaur. */
  const MinotaurRectSize := 3 * TileSize

  /** The three speeds; each divides the tile size. */
  predicate IsSpeed(speed: int) {
    speed == PlayerSpeed || speed == HumanSpeed || speed == MinotaurSpeed
  }

  /**
   * Where a mover can be between frames: `travelled` half-pixels (a multiple
   * of its speed, at most one tile) from the centre of its tile (tx, ty), in
   * direction `dir`, which is zero exactly when it has not left the centre.
   * The tile it is heading for is floor (its own tile need not be: a tribute
   * may start on a wall tile and walk off it).
   */
  ghost predicate OnTrack(layout: Layout, x: int, y: int, tx: int, ty: int, dir: Vec, travelled: int, speed: int) {
    IsSpeed(speed) &&
    (dir == Zero || IsCardinal(dir)) &&
    0 <= travelled <= TileSize && travelled % speed == 0 &&
    (travelled == 0 <==> dir == Zero) &&
    x == Centre(tx) + Along(dir.dx, travelled) && y == Centre(ty) + Along(dir.dy, travelled) &&
    (dir != Zero ==> OnFloor(layout, Step((tx, ty), dir)))
  }

  /** d * k for a direction component d in {-1, 0, 1}, written without a product. */
  function Along(d: int, k: int): int {
    if d > 0 then k else if d < 0 then -k else 0
  }

  /**
   * Along one axis of a hop of `k` half-pixels in direction component `d`:
   * the offset from a tile centre is a whole number of tiles exactly when the
   * mover does not move on this axis or has finished the hop, and then the
   * floor division recovers the tile.
   */
  lemma AxisCentre(t: int, d: int, k: int)
    requires -1 <= d <= 1 && 0 <= k <= TileSize
    requires d != 0 ==> 0 < k
    ensures (Centre(t) + Along(d, k) - Half) % TileSize == 0 <==> d == 0 || k == TileSize
    ensures d == 0 ==> TileOf(Centre(t) + Along(d, k)) == t
    ensures d != 0 && k == TileSize ==> TileOf(Centre(t) + Along(d, k)) == t + d
  {
    ShiftByTiles(t, Along(d, k));
  }

  /**
   * On the track, at_tile_center holds exactly at the two ends of a hop, and
   * there the mover is at the centre of the re-synchronised tile: its own
   * tile before the hop, the floor tile it headed for after it.
   */
  lemma CentreOfTrack(layout: Layout, x: int, y: int, tx: int, ty: int, dir: Vec, travelled: int, speed: int)
    requires OnTrack(layout, x, y, tx, ty, dir, travelled, speed)
    ensures AtTileCenter(x, y) <==> travelled == 0 || travelled == TileSize
    ensures AtTileCenter(x, y) ==> x == Centre(TileOf(x)) && y == Centre(TileOf(y))
    ensures AtTileCenter(x, y) && travelled == TileSize ==> OnFloor(layout, (TileOf(x), TileOf(y)))
    ensures AtTileCenter(x, y) && travelled == 0 ==> TileOf(x) == tx && TileOf(y) == ty
    ensures AtTileCenter(x, y) && travelled == TileSize ==> (TileOf(x), TileOf(y)) == Step((tx, ty), dir)
  {
    AxisCentre(tx, dir.dx, travelled);
    AxisCentre(ty, dir.dy, travelled);
  }

  /** At a centre a mover starts a hop in a direction that leads onto floor, or stays put. */
  lemma StartHop(layout: Layout, tx: int, ty: int, dir: Vec, speed: int)
    requires IsSpeed(speed)
    requires dir == Zero || (IsCardinal(dir) && OnFloor(layout, Step((tx, ty), dir)))
    ensures OnTrack(layout, Centre(tx) + dir.dx * speed, Centre(ty) + dir.dy * speed, tx, ty, dir,
                    if dir == Zero then 0 else speed, speed)
  {
  }

  /** Between centres a mover slides on by its speed and stays within the hop. */
  lemma Slide(layout: Layout, x: int, y: int, tx: int, ty: int, dir: Vec, travelled: int, speed: int)
    requires OnTrack(layout, x, y, tx, ty, dir, travelled, speed) && !AtTileCenter(x, y)
    ensures OnTrack(layout, x + dir.dx * speed, y + dir.dy * speed, tx, ty, dir, travelled + speed, speed)
  {
    CentreOfTrack(layout, x, y, tx, ty, dir, travelled, speed);
  }

  /** One frame's move along one axis: the direction component times the speed is added. */
  function Move(p: int, d: int, speed: int): int { p + d * speed }

  /** What the frame loop can see of a mover: its position, its tile and its direction. */
  datatype Pose = Pose(x: int, y: int, tx: int, ty: int, dir: Vec)

  /**
   * The tile-centre discipline every update method keeps, from pose a to
   * pose b: away from a centre the tile and the direction stay; at a centre
   * the tile is re-synchronised from the position; either way the position
   * advances by the new direction times the speed.
   */
  predicate Stepped(a: Pose, b: Pose, speed: int) {
    (!AtTileCenter(a.x, a.y) ==> b.tx == a.tx && b.ty == a.ty && b.dir == a.dir) &&
    (AtTileCenter(a.x, a.y) ==> b.tx == TileOf(a.x) && b.ty == TileOf(a.y)) &&
    b.x == Move(a.x, b.dir.dx, speed) && b.y == Move(a.y, b.dir.dy, speed)
  }

  /** The ghost hop progress after a frame's move in direction dir. */
  function HopProgress(atCentre: bool, dir: Vec, travelled: int, speed: int): int {
    if dir == Zero then 0 else if atCentre then speed else travelled + speed
  }

  /**
   * One frame of any mover: off-centre it keeps its tile and direction; at a
   * centre it re-synchronises its tile and takes a direction that is zero or
   * leads onto floor. Either way it moves by its speed and stays on the track.
   */
  lemma Advance(layout: Layout, x: int, y: int, tx: int, ty: int, dir: Vec, travelled: int, speed: int,
                ntx: int, nty: int, ndir: Vec)
    requires OnTrack(layout, x, y, tx, ty, dir, travelled, speed)
    requires !AtTileCenter(x, y) ==> ntx == tx && nty == ty && ndir == dir
    requires AtTileCenter(x, y) ==>
      ntx == TileOf(x) && nty == TileOf(y) &&
      (ndir == Zero || (IsCardinal(ndir) && OnFloor(layout, Step((ntx, nty), ndir))))
    ensures OnTrack(layout, Move(x, ndir.dx, speed), Move(y, ndir.dy, speed), ntx, nty, ndir,
                    HopProgress(AtTileCenter(x, y), ndir, travelled, speed), speed)
    ensures OnFloor(layout, (tx, ty)) ==> OnFloor(layout, (ntx, nty))
  {
    CentreOfTrack(layout, x, y, tx, ty, dir, travelled, speed);
    if AtTileCenter(x, y) {
      StartHop(layout, ntx, nty, ndir, speed);
    } else {
      Slide(layout, x, y, tx, ty, dir, travelled, speed);
    }
  }

  /** What the arrow keys read this frame. */
  datatype Keys = Keys(left: bool, right: bool, up: bool, down: bool)

  /**
   * Player.handle_input: the buffered direction becomes the direction of the
   * first held key in the order left, right, up, down, and is left alone
   * when no arrow key is held.
   */
  function InputDirection(keys: Keys, buffered: Vec): (d: Vec)
    ensures keys.left ==> d == Vec(-1, 0)
    ensures !keys.left && keys.right ==> d == Vec(1, 0)
    ensures !keys.left && !keys.right && keys.up ==> d == Vec(0, -1)
    ensures !keys.left && !keys.right && !keys.up && keys.down ==> d == Vec(0, 1)
    ensures !(keys.left || keys.right || keys.up || keys.down) ==> d == buffered
    ensures IsCardinal(buffered) || buffered == Zero ==> IsCardinal(d) || d == Zero
  {
    if keys.left then Vec(-1, 0)
    else if keys.right then Vec(1, 0)
    else if keys.up then Vec(0, -1)
    else if keys.down then Vec(0, 1)
    else buffered
  }

  /**
   * The player's direction after the turn at a tile centre: the buffered
   * direction if it can be taken, else the current one if it can, else stop.
   */
  function PlayerTurn(layout: Layout, tx: int, ty: int, dir: Vec, buffered: Vec, gatesOpen: bool): (r: Vec)
    ensures r == Zero || CanMove(layout, tx, ty, r, gatesOpen)
    ensures CanMove(layout, tx, ty, buffered, gatesOpen) ==> r == buffered
    ensures !CanMove(layout, tx, ty, buffered, gatesOpen) && CanMove(layout, tx, ty, dir, gatesOpen) ==> r == dir
    ensures !CanMove(layout, tx, ty, buffered, gatesOpen) && !CanMove(layout, tx, ty, dir, gatesOpen) ==> r == Zero
  {
    var d := if CanMove(layout, tx, ty, buffered, gatesOpen) then buffered else dir;
    if CanMove(layout, tx, ty, d, gatesOpen) then d else Zero
  }

  /** A legal move leads onto a floor tile. */
  lemma LegalMoveOntoFloor(layout: Layout, tx: int, ty: int, d: Vec, gatesOpen: bool)
    requires CanMove(layout, tx, ty, d, gatesOpen)
    ensures d != Zero
    ensures OnFloor(layout, Step((tx, ty), d))
  {
    CanMoveIsCanMoveTo(layout, tx, ty, d, gatesOpen);
    PassableIsFloor(layout, tx + d.dx, ty + d.dy, gatesOpen);
  }

  /** Player.update from pose a to pose b: the tile-centre discipline, turning by PlayerTurn at a centre. */
  predicate PlayerStep(layout: Layout, gatesOpen: bool, buffered: Vec, a: Pose, b: Pose) {
    Stepped(a, b, PlayerSpeed) &&
    (AtTileCenter(a.x, a.y) ==> b.dir == PlayerTurn(layout, b.tx, b.ty, a.dir, buffered, gatesOpen))
  }

  /** Theseus. */
  class Player {
    /** The layout the mover finds its way in (MAP_LAYOUT in the game). */
    const layout: Layout
    var x: int
    var y: int
    var tx: int
    var ty: int
    var dir: Vec
    var nextDir: Vec
    var gatesOpen: bool
    /** Distance from the centre of (tx, ty) along dir. */
    ghost var travelled: int

    ghost predicate Valid()
      reads this
    {
      OnTrack(layout, x, y, tx, ty, dir, travelled, PlayerSpeed) && OnFloor(layout, (tx, ty)) &&
      (IsCardinal(nextDir) || nextDir == Zero)
    }

    /** Player(tile_x, tile_y): standing still at the centre of the tile, gates closed. */
    constructor (layout: Layout, tileX: int, tileY: int)
      ensures this.layout == layout && tx == tileX && ty == tileY && x == Centre(tileX) && y == Centre(tileY)
      ensures dir == Zero && nextDir == Zero && !gatesOpen
      ensures OnFloor(layout, (tileX, tileY)) ==> Valid()
    {
      this.layout := layout;
      tx, ty := tileX, tileY;
      x, y := Centre(tileX), Centre(tileY);
      dir, nextDir := Zero, Zero;
      gatesOpen := false;
      travelled := 0;
    }

    /** The one-tile collision square centred on the player. */
    function Rect(): Rect
      reads this
    {
      CentredRect(x, y, TileSize)
    }

    /** The current pose. */
    function Where(): Pose
      reads this
    {
      Pose(x, y, tx, ty, dir)
    }

    /** The frame loop's broadcast of the gate flag; nothing else about the player changes. */
    method Inform(open: bool)
      modifies this`gatesOpen
      ensures gatesOpen == open
      ensures Valid() == old(Valid()) && Where() == old(Where())
    {
      gatesOpen := open;
    }

    /**
     * Player.handle_input in the source's imperative form, an if/elif chain
     * that assigns the buffered direction; InputDirection is its specification.
     */
    method HandleInput(keys: Keys)
      requires Valid()
      modifies this`nextDir
      ensures Valid()
      ensures nextDir == InputDirection(keys, old(nextDir))
    {
      if keys.left {
        nextDir := Vec(-1, 0);
      } else if keys.right {
        nextDir := Vec(1, 0);
      } else if keys.up {
        nextDir := Vec(0, -1);
      } else if keys.down {
        nextDir := Vec(0, 1);
      }
    }

    /**
     * The turn of Player.update at the centre of (tx', ty'), in the source's
     * imperative form: take the buffered direction if it is legal, then stop
     * if the direction is not. PlayerTurn is its specification.
     */
    method Turn(ntx: int, nty: int) returns (ndir: Vec)
      requires Valid()
      ensures ndir == PlayerTurn(layout, ntx, nty, dir, nextDir, gatesOpen)
      ensures ndir == Zero || (IsCardinal(ndir) && OnFloor(layout, Step((ntx, nty), ndir)))
    {
      ndir := dir;
      if CanMove(layout, ntx, nty, nextDir, gatesOpen) {
        ndir := nextDir;
      }
      if !CanMove(layout, ntx, nty, ndir, gatesOpen) {
        ndir := Zero;
      }
      if ndir != Zero {
        LegalMoveOntoFloor(layout, ntx, nty, ndir, gatesOpen);
      }
    }

    /**
     * Player.update: at a tile centre re-synchronise the tile and turn
     * (PlayerTurn), then move one step along the direction.
     */
    method Update()
      requires Valid()
      modifies this`x, this`y, this`tx, this`ty, this`dir, this`travelled
      ensures Valid()
      ensures PlayerStep(layout, gatesOpen, nextDir, old(Where()), Where())
    {
      var ntx, nty, ndir := tx, ty, dir;
      if AtTileCenter(x, y) {
        ntx, nty := TileOf(x), TileOf(y);
        ndir := Turn(ntx, nty);
      }
      Advance(layout, x, y, tx, ty, dir, travelled, PlayerSpeed, ntx, nty, ndir);
      travelled := HopProgress(AtTileCenter(x, y), ndir, travelled, PlayerSpeed);
      x, y := Move(x, ndir.dx, PlayerSpeed), Move(y, ndir.dy, PlayerSpeed);
      tx, ty, dir := ntx, nty, ndir;
    }
  }

  /** The directions of `ds`, in order, that can be taken from (tx, ty). */
  function LegalMoves(layout: Layout, ds: seq<Vec>, tx: int, ty: int, gatesOpen: bool): (r: seq<Vec>)
    ensures forall d :: d in r <==> d in ds && CanMove(layout, tx, ty, d, gatesOpen)
  {
    if ds == [] then []
    else (if CanMove(layout, tx, ty, ds[0], gatesOpen) then [ds[0]] else []) + LegalMoves(layout, ds[1..], tx, ty, gatesOpen)
  }

  /** `ds` without the direction v, in order. */
  function Without(ds: seq<Vec>, v: Vec): (r: seq<Vec>)
    ensures forall d :: d in r <==> d in ds && d != v
  {
    if ds == [] then []
    else (if ds[0] != v then [ds[0]] else []) + Without(ds[1..], v)
  }

  /**
   * The directions a tribute picks from at a tile centre: the legal ones in
   * the order right, left, down, up, with the reversal of its current
   * direction dropped when anything else is left.
   */
  function WanderChoices(layout: Layout, tx: int, ty: int, dir: Vec, gatesOpen: bool): seq<Vec> {
    var possible := LegalMoves(layout, Directions, tx, ty, gatesOpen);
    if possible != [] && dir != Zero && Without(possible, Reverse(dir)) != [] then
      Without(possible, Reverse(dir))
    else
      possible
  }

  /** Every choice is a legal cardinal move. */
  lemma WanderChoicesAreLegal(layout: Layout, tx: int, ty: int, dir: Vec, gatesOpen: bool)
    ensures forall d :: d in WanderChoices(layout, tx, ty, dir, gatesOpen) ==> IsCardinal(d) && CanMove(layout, tx, ty, d, gatesOpen)
  {
  }

  /** A tribute stops only when boxed in: there are no choices exactly when no direction is legal. */
  lemma WanderStopsOnlyWhenBoxedIn(layout: Layout, tx: int, ty: int, dir: Vec, gatesOpen: bool)
    ensures WanderChoices(layout, tx, ty, dir, gatesOpen) == [] <==> forall d :: IsCardinal(d) ==> !CanMove(layout, tx, ty, d, gatesOpen)
  {
    var possible := LegalMoves(layout, Directions, tx, ty, gatesOpen);
    if possible == [] {
      forall d | IsCardinal(d) ensures !CanMove(layout, tx, ty, d, gatesOpen) {
        assert d in Directions;
      }
    } else {
      assert possible[0] in possible;
    }
  }

  /** A moving tribute never turns back while any other legal direction exists. */
  lemma WanderAvoidsReversal(layout: Layout, tx: int, ty: int, dir: Vec, gatesOpen: bool, other: Vec)
    requires dir != Zero
    requires IsCardinal(other) && CanMove(layout, tx, ty, other, gatesOpen) && other != Reverse(dir)
    ensures Reverse(dir) !in WanderChoices(layout, tx, ty, dir, gatesOpen)
  {
    assert other in Directions;
    assert other in Without(LegalMoves(layout, Directions, tx, ty, gatesOpen), Reverse(dir));
  }

  /** No legal direction other than the reversal is ever dropped. */
  lemma WanderKeepsOtherMoves(layout: Layout, tx: int, ty: int, dir: Vec, gatesOpen: bool, d: Vec)
    requires IsCardinal(d) && CanMove(layout, tx, ty, d, gatesOpen)
    requires dir == Zero || d != Reverse(dir)
    ensures d in WanderChoices(layout, tx, ty, dir, gatesOpen)
  {
    assert d in Directions;
  }

  /** At a dead end the tribute turns back: the reversal is then the only choice. */
  lemma WanderReversesAtDeadEnd(layout: Layout, tx: int, ty: int, dir: Vec, gatesOpen: bool)
    requires IsCardinal(dir) && CanMove(layout, tx, ty, Reverse(dir), gatesOpen)
    requires forall d :: IsCardinal(d) && d != Reverse(dir) ==> !CanMove(layout, tx, ty, d, gatesOpen)
    ensures WanderChoices(layout, tx, ty, dir, gatesOpen) == [Reverse(dir)]
  {
    DirectionsAreTheCardinals();
    OneLegalMove(layout, Directions, tx, ty, gatesOpen, Reverse(dir));
    assert Without([Reverse(dir)], Reverse(dir)) == [];
  }

  /** A duplicate-free list with exactly one legal entry filters down to that entry. */
  lemma {:induction false} OneLegalMove(layout: Layout, ds: seq<Vec>, tx: int, ty: int, gatesOpen: bool, v: Vec)
    requires v in ds && CanMove(layout, tx, ty, v, gatesOpen)
    requires forall i, j :: 0 <= i < j < |ds| ==> ds[i] != ds[j]
    requires forall d :: d in ds && d != v ==> !CanMove(layout, tx, ty, d, gatesOpen)
    ensures LegalMoves(layout, ds, tx, ty, gatesOpen) == [v]
  {
    if ds[0] == v {
      NoLegalMove(layout, ds[1..], tx, ty, gatesOpen);
    } else {
      OneLegalMove(layout, ds[1..], tx, ty, gatesOpen, v);
    }
  }

  lemma NoLegalMove(layout: Layout, ds: seq<Vec>, tx: int, ty: int, gatesOpen: bool)
    requires forall d :: d in ds ==> !CanMove(layout, tx, ty, d, gatesOpen)
    ensures LegalMoves(layout, ds, tx, ty, gatesOpen) == []
  {
    if LegalMoves(layout, ds, tx, ty, gatesOpen) != [] {
      assert LegalMoves(layout, ds, tx, ty, gatesOpen)[0] in LegalMoves(layout, ds, tx, ty, gatesOpen);
    }
  }

  /**
   * Human.update from pose a to pose b: the tile-centre discipline, and at a
   * centre one of WanderChoices, or zero when there is none.
   */
  predicate HumanStep(layout: Layout, gatesOpen: bool, a: Pose, b: Pose) {
    Stepped(a, b, HumanSpeed) &&
    (AtTileCenter(a.x, a.y) ==>
      (WanderChoices(layout, b.tx, b.ty, a.dir, gatesOpen) == [] ==> b.dir == Zero) &&
      (WanderChoices(layout, b.tx, b.ty, a.dir, gatesOpen) != [] ==> b.dir in WanderChoices(layout, b.tx, b.ty, a.dir, gatesOpen)))
  }

  /** A wandering tribute. */
  class Human {
    /** The layout the mover finds its way in (MAP_LAYOUT in the game). */
    const layout: Layout
    var x: int
    var y: int
    var tx: int
    var ty: int
    var dir: Vec
    var gatesOpen: bool
    ghost var travelled: int

    ghost predicate Valid()
      reads this
    {
      OnTrack(layout, x, y, tx, ty, dir, travelled, HumanSpeed)
    }

    /** Human(tile_x, tile_y): standing still at the centre of the tile, gates closed. */
    constructor (layout: Layout, tileX: int, tileY: int)
      ensures this.layout == layout && tx == tileX && ty == tileY && x == Centre(tileX) && y == Centre(tileY)
      ensures dir == Zero && !gatesOpen
      ensures Valid()
    {
      this.layout := layout;
      tx, ty := tileX, tileY;
      x, y := Centre(tileX), Centre(tileY);
      dir := Zero;
      gatesOpen := false;
      travelled := 0;
    }

    /** The one-tile collision square centred on the tribute. */
    function Rect(): Rect
      reads this
    {
      CentredRect(x, y, TileSize)
    }

    /** The current pose. */
    function Where(): Pose
      reads this
    {
      Pose(x, y, tx, ty, dir)
    }

    /** The frame loop's broadcast of the gate flag; nothing else about the tribute changes. */
    method Inform(open: bool)
      modifies this`gatesOpen
      ensures gatesOpen == open
      ensures Valid() == old(Valid()) && Where() == old(Where())
    {
      gatesOpen := open;
    }

    /**
     * The direction Human.update picks at the centre of (tx', ty'): any of
     * WanderChoices (random.choice), or zero when there is none.
     */
    method Choose(ntx: int, nty: int) returns (ndir: Vec)
      ensures WanderChoices(layout, ntx, nty, dir, gatesOpen) == [] ==> ndir == Zero
      ensures WanderChoices(layout, ntx, nty, dir, gatesOpen) != [] ==> ndir in WanderChoices(layout, ntx, nty, dir, gatesOpen)
      ensures ndir == Zero || (IsCardinal(ndir) && OnFloor(layout, Step((ntx, nty), ndir)))
    {
      var possible := WanderChoices(layout, ntx, nty, dir, gatesOpen);
      if possible != [] {
        assert possible[0] in possible;
        var d :| d in possible;
        WanderChoicesAreLegal(layout, ntx, nty, dir, gatesOpen);
        LegalMoveOntoFloor(layout, ntx, nty, d, gatesOpen);
        ndir := d;
      } else {
        ndir := Zero;
      }
    }

    /**
     * Human.update: at a tile centre re-synchronise the tile and pick one of
     * WanderChoices at random (random.choice is any member), or stop if there
     * is none; then move one step along the direction.
     */
    method Update()
      requires Valid()
      modifies this`x, this`y, this`tx, this`ty, this`dir, this`travelled
      ensures Valid()
      ensures HumanStep(layout, gatesOpen, old(Where()), Where())
    {
      var ntx, nty, ndir := tx, ty, dir;
      if AtTileCenter(x, y) {
        ntx, nty := TileOf(x), TileOf(y);
        ndir := Choose(ntx, nty);
      }
      Advance(layout, x, y, tx, ty, dir, travelled, HumanSpeed, ntx, nty, ndir);
      travelled := HopProgress(AtTileCenter(x, y), ndir, travelled, HumanSpeed);
      x, y := Move(x, ndir.dx, HumanSpeed), Move(y, ndir.dy, HumanSpeed);
      tx, ty, dir := ntx, nty, ndir;
    }
  }

  /** The tiles the tributes were last centred on. */
  function HumanTiles(humans: seq<Human>): set<Tile>
    reads humans
  {
    set i | 0 <= i < |humans| :: (humans[i].tx, humans[i].ty)
  }

  /** The hunting goals of Minotaur.update: the player's tile, then each tribute's. */
  method HuntGoals(player: Player, humans: seq<Human>) returns (goals: set<Tile>)
    ensures goals == {(player.tx, player.ty)} + HumanTiles(humans)
    ensures forall t :: t in goals <==> t == (player.tx, player.ty) || exists h :: h in humans && t == (h.tx, h.ty)
  {
    goals := {(player.tx, player.ty)};
    for i := 0 to |humans|
      invariant goals == {(player.tx, player.ty)} + HumanTiles(humans[..i])
    {
      assert humans[..i + 1] == humans[..i] + [humans[i]];
      goals := goals + {(humans[i].tx, humans[i].ty)};
    }
    assert humans[..|humans|] == humans;
  }

  /**
   * The Minotaur's steering rule at the centre of `start`: dir is the first
   * step of a shortest walk to MinotaurGoals through the tiles can_move_to
   * allows with the given gate flag.
   */
  ghost predicate Steers(layout: Layout, start: Tile, flee: bool, player: Tile, humans: set<Tile>, gatesOpen: bool, dir: Vec) {
    IsNextStep(start, MinotaurGoals(layout, flee, player, humans), Walkable(layout, gatesOpen), dir)
  }

  /** Minotaur.update from pose a to pose b: the tile-centre discipline, steering by Steers at a centre. */
  ghost predicate MinotaurStep(layout: Layout, gatesOpen: bool, flee: bool, player: Tile, humans: set<Tile>, a: Pose, b: Pose) {
    Stepped(a, b, MinotaurSpeed) &&
    (AtTileCenter(a.x, a.y) ==> Steers(layout, (b.tx, b.ty), flee, player, humans, gatesOpen, b.dir))
  }

  /** The Minotaur's look; it changes only from the main loop. */
  datatype Mood = Normal | Scared | Dead

  /** The Minotaur. */
  class Minotaur {
    /** The layout the mover finds its way in (MAP_LAYOUT in the game). */
    const layout: Layout
    var x: int
    var y: int
    var tx: int
    var ty: int
    var dir: Vec
    var flee: bool
    var state: Mood
    var gatesOpen: bool
    ghost var travelled: int

    ghost predicate Valid()
      reads this
    {
      OnTrack(layout, x, y, tx, ty, dir, travelled, MinotaurSpeed) && OnFloor(layout, (tx, ty))
    }

    /** Minotaur(tile_x, tile_y): still at the centre of the tile, hunting, gates closed. */
    constructor (layout: Layout, tileX: int, tileY: int)
      ensures this.layout == layout && tx == tileX && ty == tileY && x == Centre(tileX) && y == Centre(tileY)
      ensures dir == Zero && !flee && state == Normal && !gatesOpen
      ensures OnFloor(layout, (tileX, tileY)) ==> Valid()
    {
      this.layout := layout;
      tx, ty := tileX, tileY;
      x, y := Centre(tileX), Centre(tileY);
      dir := Zero;
      flee := false;
      state := Normal;
      gatesOpen := false;
      travelled := 0;
    }

    /** The three-tile collision square centred on the Minotaur. */
    function Rect(): Rect
      reads this
    {
      CentredRect(x, y, MinotaurRectSize)
    }

    /** The current pose. */
    function Where(): Pose
      reads this
    {
      Pose(x, y, tx, ty, dir)
    }

    /** The frame loop's broadcast of the gate flag; nothing else about the Minotaur changes. */
    method Inform(open: bool)
      modifies this`gatesOpen
      ensures gatesOpen == open
      ensures Valid() == old(Valid()) && Where() == old(Where())
    {
      gatesOpen := open;
    }

    /** The frame loop's flee flag and the matching look: scared while fleeing, normal otherwise. */
    method SetMood(fleeing: bool)
      modifies this`flee, this`state
      ensures flee == fleeing && state == (if fleeing then Scared else Normal)
      ensures Valid() == old(Valid()) && Where() == old(Where())
    {
      flee := fleeing;
      state := if fleeing then Scared else Normal;
    }

    /** The Minotaur slain: it looks dead and stays where it is. */
    method Slay()
      modifies this`state
      ensures state == Dead
      ensures Valid() == old(Valid()) && Where() == old(Where())
    {
      state := Dead;
    }

    /**
     * The direction Minotaur.update takes at the centre of (tx', ty'): the
     * first step of a shortest walk to the goals through the tiles
     * can_move_to allows.
     */
    method Heading(ntx: int, nty: int, player: Player, humans: seq<Human>) returns (ndir: Vec)
      ensures Steers(layout, (ntx, nty), flee, (player.tx, player.ty), HumanTiles(humans), gatesOpen, ndir)
      ensures ndir == Zero || (IsCardinal(ndir) && OnFloor(layout, Step((ntx, nty), ndir)))
    {
      var goals := Goals(player, humans);
      ndir := NextStep((ntx, nty), goals, Walkable(layout, gatesOpen));
      if ndir != Zero {
        PassableIsFloor(layout, ntx + ndir.dx, nty + ndir.dy, gatesOpen);
      }
    }

    /**
     * The goal choice of Minotaur.update: the flee search's tile while
     * fleeing (the player's tile if the search finds none), otherwise the
     * player's tile and every tribute's tile.
     */
    method Goals(player: Player, humans: seq<Human>) returns (goals: set<Tile>)
      ensures goals == MinotaurGoals(layout, flee, (player.tx, player.ty), HumanTiles(humans))
    {
      if flee {
        var best := FleeGoal(layout, (player.tx, player.ty));
        goals := if best.None? then {(player.tx, player.ty)} else {best.value};
      } else {
        goals := HuntGoals(player, humans);
      }
    }

    /**
     * Minotaur.update: at a tile centre re-synchronise the tile, choose the
     * goals (MinotaurGoals) and take the first step of a shortest walk to the
     * nearest of them through the tiles can_move_to allows (zero if it is on a
     * goal or cannot reach one); then move one step along the direction.
     */
    method Update(player: Player, humans: seq<Human>)
      requires Valid()
      modifies this`x, this`y, this`tx, this`ty, this`dir, this`travelled
      ensures Valid()
      ensures MinotaurStep(layout, gatesOpen, flee, old((player.tx, player.ty)), old(HumanTiles(humans)), old(Where()), Where())
    {
      var ntx, nty, ndir := tx, ty, dir;
      if AtTileCenter(x, y) {
        ntx, nty := TileOf(x), TileOf(y);
        ndir := Heading(ntx, nty, player, humans);
      }
      Advance(layout, x, y, tx, ty, dir, travelled, MinotaurSpeed, ntx, nty, ndir);
      travelled := HopProgress(AtTileCenter(x, y), ndir, travelled, MinotaurSpeed);
      x, y := Move(x, ndir.dx, MinotaurSpeed), Move(y, ndir.dy, MinotaurSpeed);
      tx, ty, dir := ntx, nty, ndir;
    }
  }
}
