/**
 * The game: the level, Theseus, the Minotaur and the tributes, and the frame
 * loop that moves everyone, eats pellets and settles the phase of the game
 * (hunting, fleeing once every pellet is gone, the Minotaur slain and the
 * gates open, and the two ends: Theseus dead or escaped).
 */
module Game {
  import opened Maze
  import opened Geometry
  import opened Level
  import opened Pellets
  import opened Movers

  /** The flags the frame loop keeps. */
  datatype Phase = Phase(dead: bool, won: bool, minotaurAlive: bool, minotaurFlee: bool,
                         gatesOpen: bool, fleeAnnounced: bool)

  /** A fresh game: Theseus alive, the Minotaur alive and hunting, the gates shut. */
  const Start := Phase(false, false, true, false, false, false)

  /**
   * The states the flags can be in: the gates are open exactly when the
   * Minotaur is dead, it dies only after it started to flee, it flees exactly
   * when the flight was announced, Theseus escapes only through open gates and
   * never both dies and escapes, and he can only have died to a live Minotaur.
   */
  predicate Consistent(p: Phase) {
    (p.gatesOpen <==> !p.minotaurAlive) &&
    (!p.minotaurAlive ==> p.minotaurFlee) &&
    (p.minotaurFlee <==> p.fleeAnnounced) &&
    !(p.dead && p.won) &&
    (p.won ==> p.gatesOpen) &&
    (p.dead ==> p.minotaurAlive)
  }

  /**
   * The flag updates of one frame, given what the frame saw after everyone
   * moved: whether the pellet list is empty, whether Theseus's square overlaps
   * the Minotaur's, and whether it overlaps a gate. Nothing changes once the
   * game has ended; otherwise the Minotaur starts to flee when the last pellet
   * is gone, an overlap kills the Minotaur if it flees and Theseus if not, and
   * touching a gate wins once the gates are open.
   */
  function NextPhase(p: Phase, cleared: bool, hit: bool, touch: bool): (q: Phase)
    ensures p.dead || p.won ==> q == p
    ensures Consistent(p) ==> Consistent(q)
    ensures (p.dead ==> q.dead) && (p.won ==> q.won) && (p.minotaurFlee ==> q.minotaurFlee)
    ensures (p.gatesOpen ==> q.gatesOpen) && (p.fleeAnnounced ==> q.fleeAnnounced) && (!p.minotaurAlive ==> !q.minotaurAlive)
    ensures q.minotaurFlee && !p.minotaurFlee ==> cleared && p.minotaurAlive
    ensures !p.dead && !p.won && p.minotaurAlive && cleared ==> q.minotaurFlee
    ensures q.dead && !p.dead ==> hit && p.minotaurAlive && !q.minotaurFlee
    ensures p.minotaurAlive && !q.minotaurAlive ==> hit && q.minotaurFlee && q.gatesOpen
    ensures !p.dead && !p.won && p.minotaurAlive && hit ==> q.dead != !q.minotaurAlive
    ensures q.won && !p.won ==> touch && q.gatesOpen
    ensures !p.dead && !p.won && q.gatesOpen && touch ==> q.won
  {
    if p.dead || p.won then p
    else
      var flee := p.minotaurFlee || (cleared && p.minotaurAlive);
      var announced := p.fleeAnnounced || (cleared && p.minotaurAlive && !p.minotaurFlee);
      var kill := p.minotaurAlive && hit && flee;
      var die := p.minotaurAlive && hit && !flee;
      var gates := p.gatesOpen || kill;
      Phase(die, gates && touch, p.minotaurAlive && !kill, flee, gates, announced)
  }

  /** From a fresh game, the flags stay consistent whatever the frames see. */
  lemma {:induction false} FramesKeepConsistent(ps: seq<(bool, bool, bool)>)
    ensures Consistent(Run(Start, ps))
  {
    if ps != [] {
      FramesKeepConsistent(ps[..|ps| - 1]);
    }
  }

  /** The flags after a sequence of frames, each given by what it saw. */
  function Run(p: Phase, ps: seq<(bool, bool, bool)>): Phase {
    if ps == [] then p
    else
      var last := ps[|ps| - 1];
      NextPhase(Run(p, ps[..|ps| - 1]), last.0, last.1, last.2)
  }

  /**
   * The Minotaur's flight, its death and the escape can all happen in one
   * frame: the last pellet eaten while touching both the Minotaur and a gate.
   */
  lemma OneFrameVictory()
    ensures NextPhase(Start, true, true, true) == Phase(false, true, false, true, true, true)
  {
  }

  /** The nine tributes' start tiles. */
  const TributeStarts: seq<Tile> := [(1, 1), (26, 1), (1, 20), (26, 20), (1, 23), (26, 23), (13, 5), (14, 5), (13, 26)]

  /**
   * Eight of the tributes start on floor; the ninth starts inside a wall
   * tile, (13, 26), from which its only move leads out to the left.
   */
  lemma TributeStartTiles()
    ensures forall i :: 0 <= i < 8 ==> OnFloor(MapLayout, TributeStarts[i])
    ensures TileAt(MapLayout, 13, 26) == '#'
    ensures CanMove(MapLayout, 13, 26, Vec(-1, 0), false)
    ensures !CanMove(MapLayout, 13, 26, Vec(1, 0), true) && !CanMove(MapLayout, 13, 26, Vec(0, 1), true)
    ensures !CanMove(MapLayout, 13, 26, Vec(0, -1), true)
  {
    LayoutLookup(1, 1);
    LayoutLookup(26, 1);
    LayoutLookup(1, 20);
    LayoutLookup(26, 20);
    LayoutLookup(1, 23);
    LayoutLookup(26, 23);
    LayoutLookup(13, 5);
    LayoutLookup(14, 5);
    LayoutLookup(13, 26);
    LayoutLookup(12, 26);
    LayoutLookup(14, 26);
    LayoutLookup(13, 25);
    LayoutLookup(13, 27);
  }

  /** The tributes the Minotaur's square r does not overlap, in order. */
  function Spared(hs: seq<Human>, r: Rect): seq<Human>
    reads hs
  {
    if hs == [] then [] else (if Overlap(r, hs[0].Rect()) then [] else [hs[0]]) + Spared(hs[1..], r)
  }

  /** Exactly the tributes outside the Minotaur's square survive, and no tribute is listed twice. */
  lemma {:induction false} SparedMembers(hs: seq<Human>, r: Rect)
    ensures forall h :: h in Spared(hs, r) <==> h in hs && !Overlap(r, h.Rect())
    ensures |Spared(hs, r)| <= |hs|
    ensures (forall i, j :: 0 <= i < j < |hs| ==> hs[i] != hs[j]) ==>
      forall i, j :: 0 <= i < j < |Spared(hs, r)| ==> Spared(hs, r)[i] != Spared(hs, r)[j]
  {
    if hs != [] {
      SparedMembers(hs[1..], r);
      assert hs == [hs[0]] + hs[1..];
    }
  }

  /** Filtering a list extended by one tribute extends the filtered list by that tribute, if spared. */
  lemma {:induction false} SparedAppend(hs: seq<Human>, h: Human, r: Rect)
    ensures Spared(hs + [h], r) == Spared(hs, r) + (if Overlap(r, h.Rect()) then [] else [h])
  {
    if hs != [] {
      assert (hs + [h])[1..] == hs[1..] + [h];
      SparedAppend(hs[1..], h, r);
    }
  }

  /**
   * What a running frame's flag update keeps: the flags stay consistent, the
   * Minotaur flees only with no pellet left, and a dead Minotaur stays dead.
   */
  lemma SettledPhase(p: Phase, pellets: seq<Rect>, pr: Rect, rest: seq<Rect>, hit: bool, touch: bool, q: Phase)
    requires Consistent(p) && (p.minotaurFlee ==> pellets == [])
    requires rest == Uneaten(pellets, pr) && q == NextPhase(p, rest == [], hit, touch)
    ensures Consistent(q) && (q.minotaurFlee ==> rest == []) && (q.minotaurAlive ==> p.minotaurAlive)
  {
  }

  /** The tributes left after a frame are some of those before it, none listed twice. */
  lemma Remaining(hs: seq<Human>, r: Rect, eat: bool, survivors: seq<Human>)
    requires forall i, j :: 0 <= i < j < |hs| ==> hs[i] != hs[j]
    requires survivors == if eat then Spared(hs, r) else hs
    ensures forall h :: h in survivors ==> h in hs
    ensures forall i, j :: 0 <= i < j < |survivors| ==> survivors[i] != survivors[j]
  {
    SparedMembers(hs, r);
  }

  /** The hunting loop of the frame: keep every tribute the Minotaur's square does not overlap. */
  method Survivors(hs: seq<Human>, r: Rect) returns (s: seq<Human>)
    ensures s == Spared(hs, r)
  {
    s := [];
    for i := 0 to |hs|
      invariant s == Spared(hs[..i], r)
    {
      assert hs[..i + 1] == hs[..i] + [hs[i]];
      SparedAppend(hs[..i], hs[i], r);
      if !Overlap(r, hs[i].Rect()) {
        s := s + [hs[i]];
      }
    }
    assert hs[..|hs|] == hs;
  }

  /** Whether the square r overlaps some gate. */
  predicate Touches(r: Rect, gates: seq<Rect>) {
    exists i :: 0 <= i < |gates| && Overlap(r, gates[i])
  }

  /** The escape loop of the frame: scan the gates, stopping at the first one Theseus overlaps. */
  method TouchesGate(r: Rect, gates: seq<Rect>) returns (b: bool)
    ensures b <==> Touches(r, gates)
  {
    b := false;
    for i := 0 to |gates|
      invariant !b ==> forall j :: 0 <= j < i ==> !Overlap(r, gates[j])
      invariant b ==> Touches(r, gates)
    {
      if Overlap(r, gates[i]) {
        b := true;
        break;
      }
    }
  }

  /** One tribute per start tile, each standing still at the centre of its tile. */
  method NewTributes(layout: Layout, starts: seq<Tile>) returns (hs: seq<Human>)
    ensures |hs| == |starts|
    ensures forall k :: 0 <= k < |hs| ==> fresh(hs[k]) && hs[k].layout == layout && hs[k].Valid()
    ensures forall k :: 0 <= k < |hs| ==> hs[k].Where() == Pose(Centre(starts[k].0), Centre(starts[k].1), starts[k].0, starts[k].1, Zero)
    ensures forall k :: 0 <= k < |hs| ==> !hs[k].gatesOpen
    ensures forall k, l :: 0 <= k < l < |hs| ==> hs[k] != hs[l]
  {
    hs := [];
    for i := 0 to |starts|
      invariant |hs| == i
      invariant forall k :: 0 <= k < i ==> fresh(hs[k]) && hs[k].layout == layout && hs[k].Valid()
      invariant forall k :: 0 <= k < i ==> !hs[k].gatesOpen
      invariant forall k :: 0 <= k < i ==> hs[k].Where() == Pose(Centre(starts[k].0), Centre(starts[k].1), starts[k].0, starts[k].1, Zero)
      invariant forall k, l :: 0 <= k < l < i ==> hs[k] != hs[l]
    {
      var h := new Human(layout, starts[i].0, starts[i].1);
      hs := hs + [h];
    }
  }

  /** Copy the gate flag into every tribute; nothing else about them changes. */
  method InformAll(hs: seq<Human>, open: bool)
    modifies hs
    ensures forall i :: 0 <= i < |hs| ==> hs[i].gatesOpen == open
    ensures forall i :: 0 <= i < |hs| ==> hs[i].Where() == old(hs[i].Where()) && hs[i].Valid() == old(hs[i].Valid())
  {
    for i := 0 to |hs|
      invariant forall k :: 0 <= k < i ==> hs[k].gatesOpen == open
      invariant forall k :: 0 <= k < |hs| ==> hs[k].Where() == old(hs[k].Where()) && hs[k].Valid() == old(hs[k].Valid())
    {
      hs[i].Inform(open);
    }
  }

  /** The tributes' updates, in list order; each moves by Human.update and no other changes. */
  method MoveTributes(hs: seq<Human>, ghost layout: Layout, ghost open: bool)
    requires forall i :: 0 <= i < |hs| ==> hs[i].layout == layout && hs[i].Valid() && hs[i].gatesOpen == open
    requires forall i, j :: 0 <= i < j < |hs| ==> hs[i] != hs[j]
    modifies hs
    ensures forall i :: 0 <= i < |hs| ==> hs[i].Valid() && hs[i].gatesOpen == open
    ensures forall i :: 0 <= i < |hs| ==> HumanStep(layout, open, old(hs[i].Where()), hs[i].Where())
  {
    for i := 0 to |hs|
      invariant forall k :: 0 <= k < |hs| ==> hs[k].Valid() && hs[k].gatesOpen == open
      invariant forall k :: 0 <= k < i ==> HumanStep(layout, open, old(hs[k].Where()), hs[k].Where())
      invariant forall k :: i <= k < |hs| ==> hs[k].Where() == old(hs[k].Where())
    {
      hs[i].Update();
    }
  }

  /** Adding whole tens keeps the remainder modulo ten. */
  lemma AddTens(a: int, k: nat)
    ensures (a + 10 * k) % 10 == a % 10
  {
  }

  /**
   * The rest of a frame, after everyone moved, given Theseus's square pr and
   * the Minotaur's mr: eat the pellets under Theseus (ten points each), start
   * the flight once none is left, settle an overlap of Theseus and the
   * Minotaur, let a hunting Minotaur eat the tributes under it, and let
   * Theseus escape at a gate once the gates are open.
   */
  method Settle(p: Phase, pellets: seq<Rect>, score: int, humans: seq<Human>, gates: seq<Rect>, pr: Rect, mr: Rect)
    returns (q: Phase, rest: seq<Rect>, newScore: int, survivors: seq<Human>)
    requires !p.dead && !p.won
    ensures rest == Uneaten(pellets, pr)
    ensures newScore == score + 10 * |Eaten(pellets, pr)|
    ensures score >= 0 && score % 10 == 0 ==> newScore >= 0 && newScore % 10 == 0
    ensures q == NextPhase(p, rest == [], Overlap(pr, mr), Touches(pr, gates))
    ensures survivors == if q.minotaurAlive && !q.minotaurFlee then Spared(humans, mr) else humans
  {
    var eaten;
    rest, eaten := EatByValue(pellets, pr);
    newScore := score + 10 * |eaten|;
    AddTens(score, |eaten|);
    var flee, announced, alive, open, dead, won := p.minotaurFlee, p.fleeAnnounced, p.minotaurAlive, p.gatesOpen, p.dead, p.won;
    if rest == [] && alive && !flee {
      flee := true;
      announced := true;
    }
    if alive && Overlap(pr, mr) {
      if flee {
        alive := false;
        open := true;
      } else {
        dead := true;
      }
    }
    survivors := humans;
    if alive && !flee {
      survivors := Survivors(humans, mr);
    }
    if open {
      var touch := TouchesGate(pr, gates);
      if touch {
        won := true;
      }
    }
    q := Phase(dead, won, alive, flee, open, announced);
  }

  class Game {
    const layout: Layout
    const walls: seq<Rect>
    const gates: seq<Rect>
    var pellets: seq<Rect>
    const player: Player
    const minotaur: Minotaur
    var humans: seq<Human>
    var score: int
    /** The frame loop's flags: dead, won, minotaur_alive, minotaur_flee, gates_open, flee_announced. */
    var phase: Phase

    /**
     * Every mover is on its track in the game's layout, the tributes are
     * distinct, the flags are consistent, the Minotaur flees only with the
     * pellets gone and looks dead exactly when it is, and the score counts
     * ten per pellet eaten.
     */
    ghost predicate Valid()
      reads this, player, minotaur, humans
    {
      player.layout == layout && minotaur.layout == layout &&
      player.Valid() && minotaur.Valid() &&
      (forall i :: 0 <= i < |humans| ==> humans[i].layout == layout && humans[i].Valid()) &&
      (forall i, j :: 0 <= i < j < |humans| ==> humans[i] != humans[j]) &&
      Consistent(phase) &&
      (phase.minotaurFlee ==> pellets == []) &&
      (phase.minotaurAlive <==> minotaur.state != Dead) &&
      score >= 0 && score % 10 == 0
    }

    /**
     * main: build the level, put Theseus and the Minotaur on their start
     * tiles and the nine tributes on theirs, with score zero and the flags of
     * a fresh game.
     */
    constructor ()
      ensures Valid()
      ensures layout == MapLayout
      ensures walls == Parse(MapLayout).walls && pellets == Parse(MapLayout).pellets && gates == Parse(MapLayout).gates
      ensures player.Where() == Pose(Centre(Parse(MapLayout).playerStart.0), Centre(Parse(MapLayout).playerStart.1),
                                     Parse(MapLayout).playerStart.0, Parse(MapLayout).playerStart.1, Zero)
      ensures player.nextDir == Zero && !player.gatesOpen
      ensures minotaur.Where() == Pose(Centre(Parse(MapLayout).minotaurStart.0), Centre(Parse(MapLayout).minotaurStart.1),
                                       Parse(MapLayout).minotaurStart.0, Parse(MapLayout).minotaurStart.1, Zero)
      ensures minotaur.state == Normal && !minotaur.flee && !minotaur.gatesOpen
      ensures |humans| == |TributeStarts|
      ensures forall i :: 0 <= i < |humans| ==>
        humans[i].Where() == Pose(Centre(TributeStarts[i].0), Centre(TributeStarts[i].1), TributeStarts[i].0, TributeStarts[i].1, Zero)
      ensures forall i :: 0 <= i < |humans| ==> !humans[i].gatesOpen
      ensures score == 0 && phase == Start
    {
      var lv := BuildLevel(MapLayout);
      GameStartsAreFloor();
      layout := MapLayout;
      walls, pellets, gates := lv.walls, lv.pellets, lv.gates;
      player := new Player(MapLayout, lv.playerStart.0, lv.playerStart.1);
      minotaur := new Minotaur(MapLayout, lv.minotaurStart.0, lv.minotaurStart.1);
      var hs := NewTributes(MapLayout, TributeStarts);
      humans := hs;
      score := 0;
      phase := Start;
    }

    /** Keep everyone informed about the gates: copy the game's flag into every mover. */
    method Broadcast()
      requires Valid()
      modifies player`gatesOpen, minotaur`gatesOpen, humans
      ensures Valid()
      ensures player.gatesOpen == phase.gatesOpen && minotaur.gatesOpen == phase.gatesOpen
      ensures forall i :: 0 <= i < |humans| ==> humans[i].gatesOpen == phase.gatesOpen
      ensures forall i :: 0 <= i < |humans| ==> humans[i].Where() == old(humans[i].Where())
    {
      player.Inform(phase.gatesOpen);
      InformAll(humans, phase.gatesOpen);
      minotaur.Inform(phase.gatesOpen);
    }

    /** The player's part of a frame: read the keys into the buffered direction, then Player.update. */
    method MovePlayer(keys: Keys)
      requires Valid()
      modifies player
      ensures Valid()
      ensures player.gatesOpen == old(player.gatesOpen)
      ensures player.nextDir == InputDirection(keys, old(player.nextDir))
      ensures PlayerStep(layout, player.gatesOpen, player.nextDir, old(player.Where()), player.Where())
    {
      player.HandleInput(keys);
      player.Update();
    }

    /** The tributes' part of a frame: Human.update for each, in list order. */
    method MoveHumans()
      requires Valid()
      requires forall i :: 0 <= i < |humans| ==> humans[i].gatesOpen == phase.gatesOpen
      modifies humans
      ensures Valid()
      ensures forall i :: 0 <= i < |humans| ==> humans[i].gatesOpen == phase.gatesOpen
      ensures forall i :: 0 <= i < |humans| ==> HumanStep(layout, phase.gatesOpen, old(humans[i].Where()), humans[i].Where())
    {
      MoveTributes(humans, layout, phase.gatesOpen);
    }

    /**
     * The Minotaur's part of a frame, while it lives: it is told whether to
     * flee, looks scared or normal accordingly, and runs Minotaur.update.
     */
    method MoveMinotaur()
      requires Valid() && phase.minotaurAlive
      modifies minotaur
      ensures Valid()
      ensures minotaur.gatesOpen == old(minotaur.gatesOpen)
      ensures minotaur.flee == phase.minotaurFlee && minotaur.state == (if phase.minotaurFlee then Scared else Normal)
      ensures MinotaurStep(layout, minotaur.gatesOpen, phase.minotaurFlee, (player.tx, player.ty), HumanTiles(humans),
                           old(minotaur.Where()), minotaur.Where())
    {
      minotaur.SetMood(phase.minotaurFlee);
      minotaur.Update(player, humans);
    }

    /**
     * Store the outcome of a frame: the new flags, pellets, score and
     * tributes, and the Minotaur's dead look if it was just slain.
     */
    method Commit(q: Phase, rest: seq<Rect>, newScore: int, survivors: seq<Human>)
      requires Valid()
      requires Consistent(q) && (q.minotaurFlee ==> rest == []) && newScore >= 0 && newScore % 10 == 0
      requires q.minotaurAlive ==> phase.minotaurAlive
      requires forall h :: h in survivors ==> h in humans
      requires forall i, j :: 0 <= i < j < |survivors| ==> survivors[i] != survivors[j]
      requires forall i :: 0 <= i < |humans| ==> humans[i].gatesOpen == phase.gatesOpen
      modifies this, minotaur`state
      ensures Valid()
      ensures forall i :: 0 <= i < |humans| ==> humans[i].gatesOpen == old(phase.gatesOpen)
      ensures phase == q && pellets == rest && score == newScore && humans == survivors
      ensures minotaur.state == if old(phase.minotaurAlive) && !q.minotaurAlive then Dead else old(minotaur.state)
      ensures minotaur.Where() == old(minotaur.Where()) && HumanTiles(old(humans)) == old(HumanTiles(humans))
      ensures minotaur.Rect() == old(minotaur.Rect())
    {
      forall i | 0 <= i < |survivors|
        ensures survivors[i].layout == layout && survivors[i].Valid() && survivors[i].gatesOpen == phase.gatesOpen
      {
        assert survivors[i] in humans;
      }
      if phase.minotaurAlive && !q.minotaurAlive {
        minotaur.Slay();
      }
      pellets, score, humans, phase := rest, newScore, survivors, q;
    }

    /**
     * Adopt the outcome of a frame settled at Theseus's square pr and the
     * Minotaur's square mr: the settled values become the new state, which
     * is the state Resolve promises, with the game kept valid.
     */
    method Apply(pr: Rect, mr: Rect, q: Phase, rest: seq<Rect>, newScore: int, survivors: seq<Human>)
      requires Valid() && !phase.dead && !phase.won
      requires pr == player.Rect() && mr == minotaur.Rect()
      requires rest == Uneaten(pellets, pr) && newScore == score + 10 * |Eaten(pellets, pr)|
      requires q == NextPhase(phase, rest == [], Overlap(pr, mr), Touches(pr, gates))
      requires survivors == if q.minotaurAlive && !q.minotaurFlee then Spared(humans, mr) else humans
      requires forall i :: 0 <= i < |humans| ==> humans[i].gatesOpen == phase.gatesOpen
      modifies this, minotaur`state
      ensures Valid()
      ensures forall i :: 0 <= i < |humans| ==> humans[i].gatesOpen == old(phase.gatesOpen)
      ensures pellets == Uneaten(old(pellets), player.Rect())
      ensures score == old(score) + 10 * |Eaten(old(pellets), player.Rect())|
      ensures phase == NextPhase(old(phase), pellets == [], Overlap(player.Rect(), minotaur.Rect()), Touches(player.Rect(), gates))
      ensures humans == if phase.minotaurAlive && !phase.minotaurFlee then Spared(old(humans), minotaur.Rect()) else old(humans)
      ensures minotaur.state == if old(phase.minotaurAlive) && !phase.minotaurAlive then Dead else old(minotaur.state)
      ensures minotaur.Where() == old(minotaur.Where()) && HumanTiles(old(humans)) == old(HumanTiles(humans))
    {
      SettledPhase(phase, pellets, pr, rest, Overlap(pr, mr), Touches(pr, gates), q);
      Remaining(humans, mr, q.minotaurAlive && !q.minotaurFlee, survivors);
      AddTens(score, |Eaten(pellets, pr)|);
      Commit(q, rest, newScore, survivors);
    }

    /**
     * The moving half of a frame, with every mover told about the gates:
     * Theseus reads the keys and moves, then each tribute, then the Minotaur,
     * if it lives, is told whether to flee and heads for its goal given where
     * Theseus and the tributes now stand. The game's own fields do not change.
     */
    method Moves(keys: Keys)
      requires Valid()
      requires player.gatesOpen == phase.gatesOpen && minotaur.gatesOpen == phase.gatesOpen
      requires forall i :: 0 <= i < |humans| ==> humans[i].gatesOpen == phase.gatesOpen
      modifies player, minotaur, humans
      ensures Valid()
      ensures player.gatesOpen == phase.gatesOpen && minotaur.gatesOpen == phase.gatesOpen
      ensures forall i :: 0 <= i < |humans| ==> humans[i].gatesOpen == phase.gatesOpen
      ensures player.nextDir == InputDirection(keys, old(player.nextDir))
      ensures PlayerStep(layout, phase.gatesOpen, player.nextDir, old(player.Where()), player.Where())
      ensures forall i :: 0 <= i < |humans| ==> HumanStep(layout, phase.gatesOpen, old(humans[i].Where()), humans[i].Where())
      ensures phase.minotaurAlive ==>
        MinotaurStep(layout, phase.gatesOpen, phase.minotaurFlee, (player.tx, player.ty), HumanTiles(humans),
                     old(minotaur.Where()), minotaur.Where())
      ensures phase.minotaurAlive ==> minotaur.flee == phase.minotaurFlee && minotaur.state == (if phase.minotaurFlee then Scared else Normal)
      ensures !phase.minotaurAlive ==> minotaur.Where() == old(minotaur.Where()) && minotaur.state == old(minotaur.state)
    {
      MovePlayer(keys);
      MoveHumans();
      if phase.minotaurAlive {
        MoveMinotaur();
      }
    }

    /**
     * The settling half of a frame, with everyone in their new places: the
     * pellets under Theseus are eaten, the flags move on by NextPhase, a
     * hunting Minotaur eats the tributes under it, and a slain Minotaur looks
     * dead. No mover moves.
     */
    method Resolve()
      requires Valid() && !phase.dead && !phase.won
      requires forall i :: 0 <= i < |humans| ==> humans[i].gatesOpen == phase.gatesOpen
      modifies this, minotaur`state
      ensures Valid()
      ensures forall i :: 0 <= i < |humans| ==> humans[i].gatesOpen == old(phase.gatesOpen)
      ensures pellets == Uneaten(old(pellets), player.Rect())
      ensures score == old(score) + 10 * |Eaten(old(pellets), player.Rect())|
      ensures phase == NextPhase(old(phase), pellets == [], Overlap(player.Rect(), minotaur.Rect()), Touches(player.Rect(), gates))
      ensures humans == if phase.minotaurAlive && !phase.minotaurFlee then Spared(old(humans), minotaur.Rect()) else old(humans)
      ensures minotaur.state == if old(phase.minotaurAlive) && !phase.minotaurAlive then Dead else old(minotaur.state)
      ensures minotaur.Where() == old(minotaur.Where()) && HumanTiles(old(humans)) == old(HumanTiles(humans))
    {
      var pr, mr := player.Rect(), minotaur.Rect();
      var q, rest, newScore, survivors := Settle(phase, pellets, score, humans, gates, pr, mr);
      Apply(pr, mr, q, rest, newScore, survivors);
    }

    /**
     * A frame of a game still in progress, with every mover told about the
     * gates: move everyone, then settle what their new places bring about.
     */
    method Frame(keys: Keys)
      requires Valid() && !phase.dead && !phase.won
      requires player.gatesOpen == phase.gatesOpen && minotaur.gatesOpen == phase.gatesOpen
      requires forall i :: 0 <= i < |humans| ==> humans[i].gatesOpen == phase.gatesOpen
      modifies this, player, minotaur, humans
      ensures Valid()
      ensures player.gatesOpen == old(phase.gatesOpen) && minotaur.gatesOpen == old(phase.gatesOpen)
      ensures forall i :: 0 <= i < |humans| ==> humans[i].gatesOpen == old(phase.gatesOpen)
      ensures player.nextDir == InputDirection(keys, old(player.nextDir))
      ensures PlayerStep(layout, old(phase.gatesOpen), player.nextDir, old(player.Where()), player.Where())
      ensures forall i :: 0 <= i < old(|humans|) ==>
        HumanStep(layout, old(phase.gatesOpen), old(humans[i].Where()), old(humans)[i].Where())
      ensures old(phase.minotaurAlive) ==>
        MinotaurStep(layout, old(phase.gatesOpen), old(phase.minotaurFlee), (player.tx, player.ty), HumanTiles(old(humans)),
                     old(minotaur.Where()), minotaur.Where())
      ensures old(phase.minotaurAlive) ==>
        minotaur.flee == old(phase.minotaurFlee) &&
        minotaur.state == (if !phase.minotaurAlive then Dead else if old(phase.minotaurFlee) then Scared else Normal)
      ensures !old(phase.minotaurAlive) ==> minotaur.Where() == old(minotaur.Where())
      ensures pellets == Uneaten(old(pellets), player.Rect())
      ensures score == old(score) + 10 * |Eaten(old(pellets), player.Rect())|
      ensures phase == NextPhase(old(phase), pellets == [], Overlap(player.Rect(), minotaur.Rect()), Touches(player.Rect(), gates))
      ensures humans == if phase.minotaurAlive && !phase.minotaurFlee then Spared(old(humans), minotaur.Rect()) else old(humans)
    {
      Moves(keys);
      Resolve();
    }

    /**
     * One frame of the main loop: tell everyone whether the gates are open;
     * then, unless Theseus is dead or has escaped, move everyone and settle
     * what their new places bring about. Once the game has ended nothing moves.
     */
    method Tick(keys: Keys)
      requires Valid()
      modifies this, player, minotaur, humans
      ensures Valid()
      ensures player.gatesOpen == old(phase.gatesOpen) && minotaur.gatesOpen == old(phase.gatesOpen)
      ensures forall i :: 0 <= i < |humans| ==> humans[i].gatesOpen == old(phase.gatesOpen)
      ensures old(phase.dead || phase.won) ==>
        phase == old(phase) && pellets == old(pellets) && score == old(score) && humans == old(humans)
      ensures old(phase.dead || phase.won) ==>
        player.Where() == old(player.Where()) && minotaur.Where() == old(minotaur.Where()) &&
        forall i :: 0 <= i < |humans| ==> humans[i].Where() == old(humans[i].Where())
      ensures old(phase.dead || phase.won) ==>
        player.nextDir == old(player.nextDir) && minotaur.state == old(minotaur.state) && minotaur.flee == old(minotaur.flee)
      ensures !old(phase.dead || phase.won) ==> player.nextDir == InputDirection(keys, old(player.nextDir))
      ensures !old(phase.dead || phase.won) ==>
        PlayerStep(layout, old(phase.gatesOpen), player.nextDir, old(player.Where()), player.Where())
      ensures !old(phase.dead || phase.won) ==> forall i :: 0 <= i < old(|humans|) ==>
        HumanStep(layout, old(phase.gatesOpen), old(humans[i].Where()), old(humans)[i].Where())
      ensures !old(phase.dead || phase.won) && old(phase.minotaurAlive) ==>
        MinotaurStep(layout, old(phase.gatesOpen), old(phase.minotaurFlee), (player.tx, player.ty), HumanTiles(old(humans)),
                     old(minotaur.Where()), minotaur.Where())
      ensures !old(phase.dead || phase.won) && old(phase.minotaurAlive) ==>
        minotaur.flee == old(phase.minotaurFlee) &&
        minotaur.state == (if !phase.minotaurAlive then Dead else if old(phase.minotaurFlee) then Scared else Normal)
      ensures !old(phase.minotaurAlive) ==> minotaur.Where() == old(minotaur.Where())
      ensures !old(phase.dead || phase.won) ==> pellets == Uneaten(old(pellets), player.Rect())
      ensures !old(phase.dead || phase.won) ==> score == old(score) + 10 * |Eaten(old(pellets), player.Rect())|
      ensures !old(phase.dead || phase.won) ==>
        phase == NextPhase(old(phase), pellets == [], Overlap(player.Rect(), minotaur.Rect()), Touches(player.Rect(), gates))
      ensures !old(phase.dead || phase.won) ==>
        humans == if phase.minotaurAlive && !phase.minotaurFlee then Spared(old(humans), minotaur.Rect()) else old(humans)
    {
      Broadcast();
      if !phase.dead && !phase.won {
        Frame(keys);
      }
    }
  }
}
