# Minotaur's Labyrinth — a verified model of the simulation core

Minotaur's Labyrinth is a maze chase. Theseus (the player) eats the pellets of a
fixed 28 x 31 labyrinth. Nine tributes wander it at random. The Minotaur hunts
Theseus and the tributes by breadth-first search. Once the last pellet is
gone the Minotaur flees to the floor tile farthest from Theseus. If Theseus
touches it then, it dies and the two gates open. Touching a gate while they
are open wins the game. Touching the Minotaur before it flees kills Theseus.
The game exists twice: `main.py` (pygame) and its port `sketch.js` (p5.js).
The two share their rules. Where they differ this model follows `main.py`,
except where "Left out" says otherwise.

The Dafny modules follow the program's structure:

- `Maze` (maze.dfy) holds the layout, the tile coordinates, and the
  passability checks `can_move` / `can_move_to`.
- `Geometry` (geometry.dfy) holds axis-aligned rectangles, the overlap test
  (`colliderect` / `rectOverlap`), and how each port places a mover's
  rectangle.
- `Level` (level.dfy) is `build_level`: the single pass that collects walls,
  pellets, gates and the start tiles.
- `Pellets` (pellets.dfy) is the pellet-eating loop, both versions:
  - `main.py` collects the eaten pellets and then calls `list.remove` on each;
  - `sketch.js` collects indices and splices them out in descending order.
- `Pathfinding` (pathfinding.dfy) is the Minotaur's breadth-first search and
  the path reconstruction. It is proved to return the first step of a
  shortest walk to a goal.
- `Flee` (flee.dfy) is the flee search: the non-wall tile at greatest squared
  distance from Theseus, with the first in row-major order winning ties.
- `Movers` (movers.dfy) holds the three mover classes (`Player`, `Human`,
  `Minotaur`). Each keeps the fields the source updates in place.
  - `Update` on each class is one call of the source's `update`.
  - The ghost `travelled` field and the `OnTrack` invariant prove the
    tile-centre discipline: a mover turns only at a tile centre, never enters
    a wall, and re-synchronises its tile exactly.
- `Game` (game.dfy) is `main`: setting up a run, plus one frame of its loop
  (`Game.Tick`). A frame does the following, in the source's order:
  1. broadcast the gate flag;
  2. move Theseus, then the tributes, then the Minotaur while it lives;
  3. eat pellets;
  4. check whether the flight starts;
  5. settle a collision between Theseus and the Minotaur;
  6. let the Minotaur eat tributes;
  7. check for an escape through a gate.

Units: every length is in half-pixels, so that the tribute's speed of 1.5
pixels per frame is an integer. A tile is 48 units and its centre lies 24
units in. The speeds are 8 (Theseus), 3 (tributes) and 6 (Minotaur). Each
divides the tile size, which is what makes the centre test exact.

Randomness, the keyboard and the layout enter as parameters:

- the tribute's `random.choice` is a nondeterministic choice (`:|`) among the
  legal candidates;
- the keys are a `Keys` value;
- the layout is a parameter of every maze function, and the game passes
  `MapLayout`.

Hitboxes are not all the size of their sprites. In both ports Theseus
(sprite two tiles wide) and the tributes collide with a one-tile rectangle.
Only the Minotaur's rectangle matches its three-tile sprite (`main.py:196`, `main.py:287`,
`main.py:412`). The model follows the code.

## Model

| member | source | states |
|---|---|---|
| Maze.LayoutShape | main.py:9-44 | The layout has ROWS = 31 rows, each COLS = 28 characters wide. |
| Maze.DirectionsAreTheCardinals | main.py:340-346 | The candidate list (right, left, down, up) holds exactly the four unit cardinal vectors. |
| Maze.CanMoveIsCanMoveTo | main.py:427-435 | A mover's `can_move(d)` holds exactly when d is non-zero and `can_move_to` accepts the target tile. |
| Maze.CanMoveCases | main.py:218-240 | Each blocking reason of `can_move` blocks: zero direction, out of bounds, wall, closed gate. Every other target is passable, including an open gate. |
| Maze.OpeningGatesOnlyAdds | main.py:427-435 | Opening the gates never blocks a tile, and the only tiles it unblocks are gates. |
| Maze.OpenPassableIsFloor | main.py:427-435 | With the gates open, the passable tiles are exactly the in-bounds non-wall tiles. |
| Maze.PassableIsFloor | main.py:427-435 | A tile that `can_move_to` accepts is in bounds and not a wall, whatever the gate flag. |
| Maze.TileOfCentre | main.py:212-216 | A tile's centre passes `at_tile_center`, and the floor-division resync (`main.py:246-247`) recovers that tile. |
| Geometry.OverlapSymmetric | sketch.js:388-395 | The overlap test does not depend on the order of its arguments. |
| Geometry.OverlapIffSharedCell | sketch.js:388-395 | For rectangles with area, overlap holds exactly when the half-open rectangles share a point. |
| Geometry.TouchingIsNotOverlap | sketch.js:388-395 | Rectangles that only share an edge do not collide. |
| Geometry.CentredRectsAgree | sketch.js:469-470 | `main.py`'s `rect.center = (int(x), int(y))` (`main.py:262`) and `sketch.js`'s `rect.x = int(x - side / 2)` place the rectangle identically, whenever the pixel position is whole or at least half a side from the origin. |
| Geometry.CentredRectAround | main.py:262 | A mover's rectangle is centred on its position, to within the half-pixel that `int()` drops. |
| Level.BuildLevel | main.py:531-566 | The nested loop over rows and columns returns exactly `Parse(layout)`: the rectangles of each kind in row-major order, and the last 'P' and 'M' tiles, or (0, 0) when absent. |
| Level.ParsedRects | main.py:538-558 | A rectangle is collected for a kind exactly when some in-bounds tile holds that kind's character and the rectangle is that tile's. |
| Level.RectsMembers | main.py:538-558 | Within the first n tiles of the scan, a kind's rectangles are exactly those of tiles holding its character. |
| Level.LastMarkIsLast | main.py:559-564 | A start tile is the last tile holding its mark, with no later tile holding it, or (0, 0) when no tile does. |
| Level.MarkedStartIsFloor | main.py:559-564 | When any tile holds a non-wall mark, the start tile found for it is a floor tile. |
| Level.PelletInsideTile | main.py:545-556 | Each pellet is the 9-pixel square inset 7 pixels into its tile: strictly inside it, and centred to within a pixel. |
| Level.KindsExclusive | main.py:543-558 | No layout character yields rectangles of two kinds, and pellets and gates never come from wall characters. |
| Level.GameStartsAreFloor | main.py:24 | The game's 'P' is at (2, 14) and its 'M' at (14, 14), so both parsed start tiles are floor. |
| Pellets.EatByValue | main.py:742-752 | The collect-then-`list.remove` loop eats exactly `Eaten(ps, r)` and leaves exactly `Uneaten(ps, r)`. |
| Pellets.RemoveFirst | main.py:752 | `list.remove` of a present value shortens the list by one. |
| Pellets.RemoveFirstIsFirst | main.py:752 | `list.remove` deletes exactly the first occurrence and keeps the rest in order. |
| Pellets.RemoveNextEaten | main.py:751-752 | Removing the next eaten pellet by value removes that very pellet, even when the list holds equal rectangles. |
| Pellets.DropAllEaten | main.py:751-752 | After every eaten pellet has been removed, exactly the uneaten pellets remain. |
| Pellets.UneatenMembers | main.py:742-752 | A pellet survives exactly when Theseus's square does not overlap it, is eaten exactly when it does, and the two lists together account for every pellet. |
| Pellets.NoneEaten | main.py:742-752 | A list that Theseus's square does not touch is left unchanged. |
| Pellets.UneatenIdempotent | main.py:742-752 | Eating again from the same position eats nothing more. |
| Pellets.CollectEaten | sketch.js:272-283 | The first loop of `sketch.js` collects, in ascending order, exactly the indices of the overlapping pellets. |
| Pellets.EatBySplice | sketch.js:272-288 | Splicing the collected indices out in descending order leaves exactly `Uneaten(ps, r)`, the same list `main.py` produces, and counts the eaten pellets. |
| Pellets.UneatenAfterIndex | sketch.js:284-288 | From one eaten index up to the next, the survivors are the clean stretch between the two. |
| Pellets.SpliceStep | sketch.js:286-288 | One splice of the descending walk removes one eaten pellet, and the positions still to be spliced keep their indices. |
| Pathfinding.Bfs | main.py:473-494 | The search returns a goal of minimum hop count together with a parent tree of one-hop links, or reports that no goal is reachable from the start. |
| Pathfinding.NearestGoal | main.py:481-485 | The first goal dequeued is at least as close as any walk to any goal. |
| Pathfinding.NoGoalReachable | main.py:481-494 | A queue that empties without meeting a goal means that no walk reaches one. |
| Pathfinding.WalkStaysInDone | main.py:481-494 | A walk that starts in the expanded region stays there while the region is closed under one-hop links. |
| Pathfinding.FirstStepOfShortestPath | main.py:496-505 | The walk rebuilt from parent pointers, prefixed with the start, is a shortest walk to a goal. |
| Pathfinding.NextStep | main.py:473-508 | The new direction is zero exactly when the start is a goal or no goal is reachable. Otherwise it is a unit step onto a passable neighbour, and that neighbour begins a shortest walk to a goal. |
| Pathfinding.Walkable | main.py:427-435 | The tiles the search may enter are exactly those `can_move_to` accepts, all in bounds. |
| Pathfinding.Visit | main.py:488-494 | One turn of the neighbour loop: a neighbour not yet in `came_from` that can be entered is recorded with the expanded tile as parent and appended to the queue. Otherwise `came_from` and the queue are left exactly as they were. |
| Pathfinding.Expand | main.py:487-494 | The whole neighbour loop, in the order right, left, down, up. Afterwards every passable neighbour is recorded at most one level below the expanded tile. The tree stays a BFS tree, and every newly recorded tile is passable and queued. The queue keeps its old tiles and stays in depth order. |
| Flee.SquareIsProduct | main.py:459 | The squared distance `dx * dx + dy * dy` is the product the source computes. |
| Flee.FleeGoal | main.py:449-462 | The scan returns the floor tile farthest from Theseus, the first in row-major order among equals. It returns nothing exactly when the layout has no floor. |
| Flee.FleeTarget | main.py:449-466 | The flee goal, when one exists, is farthest from Theseus and beats every earlier tile strictly. When none exists, no tile qualifies. |
| Flee.FleeGoalUnique | main.py:453-462 | At most one tile satisfies the flee rule, so the row-major tie-break leaves no choice. |
| Movers.CentreOfTrack | main.py:212-216 | On a mover's track, `at_tile_center` holds exactly at the two ends of a hop. There the resync gives the tile it left or the floor tile it headed for. |
| Movers.Advance | main.py:242-259 | One update keeps a mover on its track: it turns only at a centre, and only onto floor or to a stop. It advances by its speed. |
| Movers.InputDirection | main.py:202-210 | The buffered direction becomes that of the first held arrow key, in the order left, right, up, down. It is unchanged when no arrow is held. |
| Movers.PlayerTurn | main.py:249-255 | At a centre Theseus takes the buffered direction if it is legal, else keeps his direction if that is legal, else stops. |
| Movers.LegalMoveOntoFloor | main.py:218-240 | A legal move is non-zero and leads onto a floor tile. |
| Movers.Player.constructor | main.py:179-200 | Theseus starts still at the centre of his tile, with nothing buffered and the gates closed. |
| Movers.Player.Inform | main.py:720 | The broadcast sets Theseus's gate flag and changes nothing else. |
| Movers.Player.HandleInput | main.py:202-210 | The if/elif chain that sets the buffered direction computes `InputDirection(keys, old buffered)`, its specification. |
| Movers.Player.Turn | main.py:249-255 | The two assignments of the turn at a centre compute `PlayerTurn`, its specification, and the result leads onto floor or stops. |
| Movers.Player.Update | main.py:242-262 | One update of Theseus is a `PlayerStep`: resync and turn at a centre, then move by the speed. It keeps the track invariant. |
| Movers.LegalMoves | main.py:347 | The candidates kept are exactly the legal directions of the list. |
| Movers.Without | main.py:353 | Dropping the reversal keeps exactly the other candidates. |
| Movers.WanderChoicesAreLegal | main.py:340-356 | Every direction a tribute may pick is a legal cardinal move. |
| Movers.WanderStopsOnlyWhenBoxedIn | main.py:347-358 | A tribute has no choice, and stops, exactly when no direction is legal. |
| Movers.WanderAvoidsReversal | main.py:349-355 | A moving tribute never turns back while another legal direction exists. |
| Movers.WanderKeepsOtherMoves | main.py:347-355 | Every legal direction other than the reversal stays a candidate. |
| Movers.WanderReversesAtDeadEnd | main.py:349-356 | At a dead end the reversal is the only candidate. |
| Movers.Human.constructor | main.py:272-294 | A tribute starts still at the centre of its tile, with the gates closed. |
| Movers.Human.Inform | main.py:721-722 | The broadcast sets the tribute's gate flag and changes nothing else. |
| Movers.Human.Choose | main.py:347-358 | `random.choice` yields some member of the candidates, or zero when there are none. The result leads onto floor. |
| Movers.Human.Update | main.py:333-363 | One update of a tribute is a `HumanStep`: resync and choose at a centre, then move by the speed. It keeps the track invariant. |
| Movers.HuntGoals | main.py:467-471 | The hunting goals are exactly Theseus's tile and every tribute's tile. |
| Movers.Minotaur.constructor | main.py:373-419 | The Minotaur starts still at the centre of its tile, hunting, with normal looks and the gates closed. |
| Movers.Minotaur.Inform | main.py:723 | The broadcast sets the Minotaur's gate flag and changes nothing else. |
| Movers.Minotaur.SetMood | main.py:733-739 | The flee flag is copied in, and the look becomes scared while fleeing and normal otherwise. The Minotaur does not move. |
| Movers.Minotaur.Slay | main.py:765-767 | The slain Minotaur looks dead and stays where it is. |
| Movers.Minotaur.Goals | main.py:449-471 | The goals are the flee target while fleeing (Theseus's tile if there is none), otherwise the hunting goals. |
| Movers.Minotaur.Heading | main.py:473-508 | The heading at a centre is the first step of a shortest walk to the goals through the tiles `can_move_to` allows, and it leads onto floor. |
| Movers.Minotaur.Update | main.py:437-514 | One update of the Minotaur is a `MinotaurStep`: resync and steer at a centre, then move by the speed. It keeps the track invariant. |
| Game.NextPhase | main.py:754-802 | One frame's flag update. Ended games are frozen, and consistency is preserved. The flight starts exactly when the pellets run out. An overlap kills the Minotaur if it flees and Theseus otherwise. The gates open only with the Minotaur's death, and a win needs open gates and a gate touched. |
| Game.FramesKeepConsistent | main.py:695-802 | From a fresh game the flags stay consistent after any sequence of frames. |
| Game.OneFrameVictory | main.py:754-802 | The fixed order of the checks lets the last pellet, the kill and the escape all fall in one frame. |
| Game.TributeStartTiles | main.py:682-691 | Eight tributes start on floor. The ninth starts inside the wall tile (13, 26), whose only exit is to the left. |
| Game.SparedMembers | main.py:779-793 | Exactly the tributes outside the Minotaur's square survive, and the list stays duplicate-free. |
| Game.SettledPhase | main.py:754-777 | A running frame's flag update keeps the flags consistent, lets the Minotaur flee only with no pellet left, and never revives a dead Minotaur. |
| Game.Remaining | main.py:779-793 | The tributes after a frame are some of those before it, none listed twice. |
| Game.SparedAppend | main.py:783-785 | Filtering a list extended by one tribute appends that tribute exactly when the Minotaur's square misses it. |
| Game.Survivors | main.py:779-793 | The hunting loop keeps exactly `Spared(humans, minotaur.rect)`, in order. |
| Game.TouchesGate | main.py:795-802 | The gate scan reports a touch exactly when Theseus's square overlaps some gate. |
| Game.NewTributes | main.py:693 | One fresh, distinct tribute per start tile, each still at the centre of its tile. |
| Game.InformAll | main.py:721-722 | Every tribute gets the gate flag, and none moves. |
| Game.MoveTributes | main.py:730-731 | Each tribute, in list order, performs one `HumanStep`. |
| Game.Settle | main.py:742-802 | The rest of a frame: the surviving pellets, ten points per eaten pellet, flags equal to `NextPhase`, and a hunting Minotaur's survivors. The score stays a non-negative multiple of ten. |
| Game.Game.constructor | main.py:676-704 | Setting up a run: `build_level`'s walls, pellets and gates. Theseus and the Minotaur stand still at the centres of the parsed start tiles, and the nine tributes at the centres of theirs. Nothing is buffered, the Minotaur looks normal and is not fleeing, and every mover's gate flag is false. The score is zero and the flags are those of a fresh game. |
| Game.Game.Broadcast | main.py:719-723 | Every mover's gate flag equals the game's, and no mover moves. |
| Game.Game.MovePlayer | main.py:726-728 | The keys are read, then Theseus performs one `PlayerStep`. |
| Game.Game.MoveHumans | main.py:730-731 | Every tribute performs one `HumanStep` under the current gate flag. |
| Game.Game.MoveMinotaur | main.py:733-740 | The Minotaur is told whether to flee, looks scared or normal, and performs one `MinotaurStep` toward where Theseus and the tributes now stand. |
| Game.Game.Commit | main.py:762-793 | The frame's outcome is stored, and a Minotaur slain this frame looks dead. Every tribute left keeps the gate flag it was told, and the game invariant is kept. |
| Game.Game.Apply | main.py:742-802 | Values settled at the current squares of Theseus and the Minotaur become the new state. The pellets, score, `NextPhase` flags and surviving tributes are exactly those the settle rules give, and no mover moves. |
| Game.Game.Moves | main.py:725-740 | The moving half of a frame: Theseus, then the tributes, then a living Minotaur, each by its own step rule. A dead Minotaur stays put. |
| Game.Game.Resolve | main.py:742-802 | The settling half of a frame, from the new positions: pellets, score, `NextPhase`, the tributes eaten, the dead look. Every tribute left keeps the gate flag it was told. No mover moves. |
| Game.Game.Frame | main.py:725-802 | A frame of a running game is the moving half followed by the settling half, with the game invariant kept. Every mover, and every tribute left, holds the gate flag broadcast at the start of the frame. |
| Game.Game.Tick | main.py:719-802 | One pass of the main loop: broadcast, then either a full frame, or, with Theseus dead or escaped, nothing besides the gate flags: no move, no buffered key, no change of look or flee flag, pellets, score, tributes or flags. In both branches every mover, tributes included, holds the broadcast gate flag. The game invariant is kept. |

## Left out

- Drawing, the HUD, sprites, fonts, sound and the end screens
  (`draw_level`, the `draw` methods, `show_game_over`, `show_win_screen`) are
  not modelled. They are presentation and do not feed back into the rules.
- The event loop, the frame clock and the quit and restart keys are not
  modelled. A restart is a new `Game`.
- `Human.random_color` picks a draw colour only, so it is not modelled.
- Game.Game.Tick: `main.py` leaves `main()` once Theseus is dead or has
  escaped (`main.py:815-820`), while `sketch.js` keeps calling `draw` and
  skips the rules (`sketch.js:252`). The frozen branch of `Tick` models the
  latter.
- Pathfinding.NextStep: the contract promises the first step of some shortest
  walk to a goal. The breadth-first search's fixed tie-break (right, left,
  down, up expansion order, first goal dequeued) is in the body of
  `Bfs` but not in its contract.
  Movers.Minotaur.Heading and Movers.Minotaur.Update inherit this.
- Movers.Human.Choose: `random.choice` is modelled as an arbitrary member of
  the candidates. The distribution over them is not modelled.
- Pixel positions are floats in the source. The model uses integer
  half-pixels, which is exact because every speed is a multiple of half a
  pixel and every position is reached from a tile centre.
- The collision rectangles are functions of the position (`Rect()`).
  `main.py` stores them in a `rect` field refreshed after each move, and the
  two agree after every update.
- `sketch.js` truncates with `int(x / y)` where `main.py` floors with `//`.
  At tile centres the division is exact, so the two agree. The rectangle
  placements of the two ports are related by Geometry.CentredRectsAgree.
- Outside the layout `TileAt` reads as wall. Every member that uses it first
  checks the bounds, as the source does.
- The tribute starting at (13, 26) starts inside a wall tile (see
  Game.TributeStartTiles). For that reason the movers' track invariant
  requires the tile a mover heads for to be floor, but not its own tile.
- The loop's six flags (`dead`, `won`, `minotaur_alive`, `minotaur_flee`,
  `gates_open`, `minotaur_flee_announced`) are one `Phase` value.
  `minotaur_flee_announced` only gates the growl sound.
- Level.BuildLevel: the loop runs over the fixed Rows x Cols, as `sketch.js`
  does (`sketch.js:752-754`). `main.py` walks the layout's own rows and
  characters. The two passes are the same on the game's layout, which is a
  Rows x Cols rectangle (Maze.LayoutShape).
