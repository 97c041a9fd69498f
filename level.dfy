/**
 * build_level / buildLevel: one row-major pass over the layout that collects a
 * wall square per '#', a pellet square per '.' or 'o', a gate square per 'G',
 * and the tiles of the last 'P' and the last 'M' (both (0, 0) when absent).
 * Rectangles are in half-pixels, like every length of the model.
 */
module Level {
  import opened Maze
  import opened Geometry

  /** TILE_SIZE * 3 // 8 (9 pixels), and the pellet's side and inset in half-pixels (18 and 14). */
  const PelletPx := TilePx * 3 / 8
  const PelletSize := 2 * PelletPx
  const PelletOffset := 2 * ((TilePx - PelletPx) / 2)

  /** The square a wall or gate tile covers. */
  function TileRect(t: Tile): Rect {
    Rect(t.0 * TileSize, t.1 * TileSize, TileSize, TileSize)
  }

  /** The pellet square in the middle of a pellet tile. */
  function PelletRect(t: Tile): Rect {
    Rect(t.0 * TileSize + PelletOffset, t.1 * TileSize + PelletOffset, PelletSize, PelletSize)
  }

  /** The three kinds of rectangle the parse collects. */
  datatype Kind = Wall | Pellet | Gate

  /** Which layout characters yield a rectangle of each kind. */
  predicate Marks(k: Kind, c: char) {
    match k
    case Wall => c == '#'
    case Pellet => c == '.' || c == 'o'
    case Gate => c == 'G'
  }

  function KindRect(k: Kind, t: Tile): Rect {
    if k == Pellet then PelletRect(t) else TileRect(t)
  }

  /** The n-th tile in row-major order. */
  function CellAt(n: int): Tile {
    (n % Cols, n / Cols)
  }

  /** The character of the n-th tile in row-major order. */
  function CharAt(layout: Layout, n: int): char {
    TileAt(layout, CellAt(n).0, CellAt(n).1)
  }

  /** The rectangles of kind k among the first n tiles, in row-major order. */
  function Rects(layout: Layout, k: Kind, n: nat): seq<Rect> {
    if n == 0 then []
    else Rects(layout, k, n - 1) + (if Marks(k, CharAt(layout, n - 1)) then [KindRect(k, CellAt(n - 1))] else [])
  }

  /** The last tile among the first n that holds character c, or (0, 0). */
  function LastMark(layout: Layout, c: char, n: nat): Tile {
    if n == 0 then (0, 0)
    else if CharAt(layout, n - 1) == c then CellAt(n - 1)
    else LastMark(layout, c, n - 1)
  }

  /** What build_level returns. */
  datatype LevelData = LevelData(walls: seq<Rect>, pellets: seq<Rect>, gates: seq<Rect>,
                                 playerStart: Tile, minotaurStart: Tile)

  /** The level the parse produces, as a function of the layout. */
  function Parse(layout: Layout): LevelData {
    LevelData(Rects(layout, Wall, Rows * Cols), Rects(layout, Pellet, Rows * Cols), Rects(layout, Gate, Rows * Cols),
              LastMark(layout, 'P', Rows * Cols), LastMark(layout, 'M', Rows * Cols))
  }

  /** The tile (x, y) is the (y * Cols + x)-th in row-major order. */
  lemma CellOfIndex(x: int, y: int)
    requires 0 <= x < Cols
    ensures CellAt(y * Cols + x) == (x, y)
  {
    ShiftByCols(y, x);
  }

  lemma ShiftByCols(t: int, a: int)
    ensures (t * Cols + a) % Cols == a % Cols
    ensures (t * Cols + a) / Cols == t + a / Cols
  {
  }

  /** Every index below Rows * Cols names an in-bounds tile, and row-major order numbers it back. */
  lemma CellInBounds(n: int)
    requires 0 <= n < Rows * Cols
    ensures InBounds(CellAt(n).0, CellAt(n).1)
    ensures CellAt(n).1 * Cols + CellAt(n).0 == n
  {
  }

  /**
   * build_level: the nested loop over rows and columns, appending each
   * rectangle in turn and overwriting the start tiles on each 'P' and 'M'.
   * The loop runs over Rows x Cols, as sketch.js's buildLevel does; main.py
   * walks the layout's own rows and characters, which is the same pass on
   * MapLayout, a Rows x Cols rectangle (Maze.LayoutShape).
   */
  method BuildLevel(layout: Layout) returns (lv: LevelData)
    ensures lv == Parse(layout)
  {
    var walls, pellets, gates := [], [], [];
    var playerStart, minotaurStart := (0, 0), (0, 0);
    for y := 0 to Rows
      invariant walls == Rects(layout, Wall, y * Cols) && pellets == Rects(layout, Pellet, y * Cols)
      invariant gates == Rects(layout, Gate, y * Cols)
      invariant playerStart == LastMark(layout, 'P', y * Cols) && minotaurStart == LastMark(layout, 'M', y * Cols)
    {
      for x := 0 to Cols
        invariant walls == Rects(layout, Wall, y * Cols + x) && pellets == Rects(layout, Pellet, y * Cols + x)
        invariant gates == Rects(layout, Gate, y * Cols + x)
        invariant playerStart == LastMark(layout, 'P', y * Cols + x)
        invariant minotaurStart == LastMark(layout, 'M', y * Cols + x)
      {
        CellOfIndex(x, y);
        var c := TileAt(layout, x, y);
        if c == '#' {
          walls := walls + [TileRect((x, y))];
        } else if c == '.' || c == 'o' {
          pellets := pellets + [PelletRect((x, y))];
        } else if c == 'G' {
          gates := gates + [TileRect((x, y))];
        } else if c == 'P' {
          playerStart := (x, y);
        } else if c == 'M' {
          minotaurStart := (x, y);
        }
      }
      assert (y + 1) * Cols == y * Cols + Cols;
    }
    lv := LevelData(walls, pellets, gates, playerStart, minotaurStart);
  }

  /**
   * A rectangle of kind k is collected exactly when some tile among the first
   * n holds a character of that kind and the rectangle is that tile's.
   */
  lemma {:induction false} RectsMembers(layout: Layout, k: Kind, n: nat, r: Rect)
    ensures r in Rects(layout, k, n) <==>
      exists i :: 0 <= i < n && Marks(k, CharAt(layout, i)) && r == KindRect(k, CellAt(i))
  {
    if n > 0 {
      RectsMembers(layout, k, n - 1, r);
      if Marks(k, CharAt(layout, n - 1)) && r == KindRect(k, CellAt(n - 1)) {
        assert r in Rects(layout, k, n);
      }
    }
  }

  /** The collected rectangles of a full pass, one per tile of that kind, in terms of tiles. */
  lemma ParsedRects(layout: Layout, k: Kind, r: Rect)
    ensures r in Rects(layout, k, Rows * Cols) <==>
      exists t: Tile :: InBounds(t.0, t.1) && Marks(k, TileAt(layout, t.0, t.1)) && r == KindRect(k, t)
  {
    RectsMembers(layout, k, Rows * Cols, r);
    if r in Rects(layout, k, Rows * Cols) {
      var i :| 0 <= i < Rows * Cols && Marks(k, CharAt(layout, i)) && r == KindRect(k, CellAt(i));
      CellInBounds(i);
      assert InBounds(CellAt(i).0, CellAt(i).1);
    }
    if exists t: Tile :: InBounds(t.0, t.1) && Marks(k, TileAt(layout, t.0, t.1)) && r == KindRect(k, t) {
      var t: Tile :| InBounds(t.0, t.1) && Marks(k, TileAt(layout, t.0, t.1)) && r == KindRect(k, t);
      CellOfIndex(t.0, t.1);
      var i := t.1 * Cols + t.0;
      assert 0 <= i < Rows * Cols;
      assert Marks(k, CharAt(layout, i)) && r == KindRect(k, CellAt(i));
    }
  }

  /**
   * The start tile is the last tile among the first n holding c: either c
   * occurs there and nowhere later, or c does not occur and it is (0, 0).
   */
  lemma {:induction false} LastMarkIsLast(layout: Layout, c: char, n: nat)
    ensures (forall i :: 0 <= i < n ==> CharAt(layout, i) != c) ==> LastMark(layout, c, n) == (0, 0)
    ensures (exists i :: 0 <= i < n && CharAt(layout, i) == c) ==>
      exists i :: 0 <= i < n && CharAt(layout, i) == c && LastMark(layout, c, n) == CellAt(i) &&
        forall j :: i < j < n ==> CharAt(layout, j) != c
  {
    if n > 0 && CharAt(layout, n - 1) != c {
      LastMarkIsLast(layout, c, n - 1);
    }
  }

  /** A start tile that holds its mark is a floor tile, whatever the mark is besides a wall. */
  lemma MarkedStartIsFloor(layout: Layout, c: char, x: int, y: int)
    requires c != '#' && InBounds(x, y) && TileAt(layout, x, y) == c
    ensures OnFloor(layout, LastMark(layout, c, Rows * Cols))
  {
    CellOfIndex(x, y);
    assert CharAt(layout, y * Cols + x) == c;
    LastMarkIsLast(layout, c, Rows * Cols);
    var i :| 0 <= i < Rows * Cols && CharAt(layout, i) == c && LastMark(layout, c, Rows * Cols) == CellAt(i) &&
      forall j :: i < j < Rows * Cols ==> CharAt(layout, j) != c;
    CellInBounds(i);
  }

  /**
   * Each pellet is the 9 x 9 pixel square inset 7 pixels from the corner of
   * its tile: it lies strictly inside the tile square and is centred in it.
   */
  lemma PelletInsideTile(t: Tile)
    ensures var p := PelletRect(t); var q := TileRect(t);
      q.x < p.x && p.x + p.w < q.x + q.w && q.y < p.y && p.y + p.h < q.y + q.h &&
      p.x - q.x == 2 * 7 && p.w == 2 * 9 &&
      (p.x - q.x) - (q.x + q.w - (p.x + p.w)) <= 2 && (p.x - q.x) - (q.x + q.w - (p.x + p.w)) >= -2
  {
  }

  /** Tiles of different kinds never yield rectangles of two kinds: the three filters pick disjoint characters. */
  lemma KindsExclusive(c: char)
    ensures !(Marks(Wall, c) && Marks(Pellet, c)) && !(Marks(Wall, c) && Marks(Gate, c)) && !(Marks(Pellet, c) && Marks(Gate, c))
    ensures Marks(Pellet, c) || Marks(Gate, c) ==> c != '#'
  {
  }

  /** The game's layout has its 'P' at (2, 14) and its 'M' at (14, 14), so both start tiles are floor. */
  lemma GameStartsAreFloor()
    ensures TileAt(MapLayout, 2, 14) == 'P' && TileAt(MapLayout, 14, 14) == 'M'
    ensures OnFloor(MapLayout, Parse(MapLayout).playerStart) && OnFloor(MapLayout, Parse(MapLayout).minotaurStart)
  {
    LayoutLookup(2, 14);
    LayoutLookup(14, 14);
    MarkedStartIsFloor(MapLayout, 'P', 2, 14);
    MarkedStartIsFloor(MapLayout, 'M', 14, 14);
  }
}
