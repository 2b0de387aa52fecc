/**
 * One organism of the outbreak simulator: its position on the grid, its
 * health flags, its mobility and its compass direction.
 *
 * Every draw from the random source is an explicit input here: a direction
 * draw is an index into `Directions` (one `random.choice`), a Bernoulli draw
 * is a real in [0, 1) (one `random.random()`), and an infection duration is
 * the already rounded exponential sample (a natural number).
 */
module Organisms {
  import opened Wrappers

  /** The eight compass directions, written as in the simulator's `directions` list. */
  datatype Direction = N | E | S | W | NE | SE | NW | SW

  /** The simulator's `directions` list, in its order; a direction draw indexes it. */
  const Directions: seq<Direction> := [N, E, S, W, NE, SE, NW, SW]

  /** The compass letters of a direction: the strings the simulator stores. */
  function Letters(d: Direction): string
  {
    match d
    case N => "N"
    case E => "E"
    case S => "S"
    case W => "W"
    case NE => "NE"
    case SE => "SE"
    case NW => "NW"
    case SW => "SW"
  }

  /** Row offset of one step in direction `d` (north is up, towards row 0). */
  function RowStep(d: Direction): int
  {
    match d
    case N | NE | NW => -1
    case S | SE | SW => 1
    case E | W => 0
  }

  /** Column offset of one step in direction `d` (east is towards higher columns). */
  function ColStep(d: Direction): int
  {
    match d
    case E | NE | SE => 1
    case W | NW | SW => -1
    case N | S => 0
  }

  /** A grid cell, `(row, col)`. */
  datatype Cell = Cell(row: int, col: int)

  /** The cell one step from `c` in direction `d`, by the offset tables. */
  function Ahead(c: Cell, d: Direction): Cell
  {
    Cell(c.row + RowStep(d), c.col + ColStep(d))
  }

  /** A sequence of direction draws: every draw indexes `Directions`. */
  predicate DirectionDraws(draws: seq<nat>)
  {
    forall k :: 0 <= k < |draws| ==> draws[k] < |Directions|
  }

  /**
   * The three health states, encoded by the organism as two flags:
   * susceptible = healthy and not immune, infected = not healthy,
   * immune = healthy and immune.
   */
  datatype Health = Susceptible | Infected | Immune

  function HealthOf(healthy: bool, immune: bool): Health
  {
    if !healthy then Infected else if immune then Immune else Susceptible
  }

  /**
   * The two flags encode the three states faithfully: among the flag pairs
   * in which `immune` implies `healthy`, each state is the decoding of
   * exactly one pair.
   */
  lemma HealthEncoding(h: Health)
    ensures exists healthy: bool, immune: bool :: (immune ==> healthy) && HealthOf(healthy, immune) == h
    ensures forall h1: bool, i1: bool, h2: bool, i2: bool ::
      (i1 ==> h1) && (i2 ==> h2) && HealthOf(h1, i1) == h && HealthOf(h2, i2) == h ==> h1 == h2 && i1 == i2
  {
    match h
    case Susceptible => assert HealthOf(true, false) == h;
    case Infected => assert HealthOf(false, false) == h;
    case Immune => assert HealthOf(true, true) == h;
  }

  /** The value of an organism's mutable fields at one moment. */
  datatype Snap = Snap(
    healthy: bool,
    immune: bool,
    justInfected: bool,
    mobile: bool,
    remainingTime: int,
    position: Option<Cell>,
    direction: Option<Direction>)

  /** Flags that encode one of the three health states, and a chosen direction. */
  predicate WellFormedSnap(s: Snap)
  {
    (s.immune ==> s.healthy) && s.direction.Some?
  }

  function HealthOfSnap(s: Snap): Health
  {
    HealthOf(s.healthy, s.immune)
  }

  class Organism {
    var position: Option<Cell>
    const Pm: real
    const Pd: real
    var healthy: bool
    var justInfected: bool
    var immune: bool
    var mobile: bool
    var remainingTime: int
    var direction: Option<Direction>

    /**
     * A new organism is healthy, mobile, not immune, not pending infection,
     * has no position yet, and takes the first direction draw (its initial
     * direction is None, so no draw is rejected).
     */
    constructor (Pm: real, Pd: real, draws: seq<nat>)
      requires |draws| > 0 && DirectionDraws(draws)
      ensures this.Pm == Pm && this.Pd == Pd
      ensures healthy && !justInfected && !immune && mobile && remainingTime == 0
      ensures position == None
      ensures direction == Some(Directions[draws[0]])
      ensures WellFormed()
    {
      position := None;
      this.Pm := Pm;
      this.Pd := Pd;
      healthy := true;
      justInfected := false;
      immune := false;
      mobile := true;
      remainingTime := 0;
      direction := None;
      new;
      assert Some(Directions[draws[0]]) != direction;
      var _ := ChooseDirection(draws);
    }

    function Snapshot(): Snap
      reads this
    {
      Snap(healthy, immune, justInfected, mobile, remainingTime, position, direction)
    }

    predicate WellFormed()
      reads this
    {
      WellFormedSnap(Snapshot())
    }

    /** Becomes infected for `duration` ticks (the rounded exponential sample). */
    method MakeSick(duration: nat)
      modifies this`healthy, this`remainingTime
      ensures !healthy && remainingTime == duration
    {
      healthy := false;
      remainingTime := duration;
    }

    /** Recovers with permanent immunity. */
    method Recover()
      modifies this`healthy, this`immune
      ensures healthy && immune
    {
      healthy := true;
      immune := true;
    }

    /** Marks `target` as contacted; neither party's health changes now. */
    method Infect(target: Organism)
      modifies target`justInfected
      ensures target.justInfected
    {
      target.justInfected := true;
    }

    /** One Bernoulli trial with probability `Pd`, on the draw `draw`. */
    method ShouldDie(draw: real) returns (dies: bool)
      requires 0.0 <= draw < 1.0
      ensures dies <==> draw < Pd
      ensures Pd <= 0.0 ==> !dies
      ensures Pd >= 1.0 ==> dies
    {
      dies := draw < Pd;
    }

    method SetPosition(row: int, col: int)
      modifies this`position
      ensures GetPosition() == Some(Cell(row, col))
    {
      position := Some(Cell(row, col));
    }

    function GetPosition(): Option<Cell>
      reads this
    {
      position
    }

    method SetMobility(isMobile: bool)
      modifies this`mobile
      ensures mobile == isMobile
    {
      mobile := isMobile;
    }

    /**
     * Draws directions until one differs from the current one and takes it.
     * `k` is the index of the accepted draw: every earlier draw repeated the
     * current direction.
     */
    method ChooseDirection(draws: seq<nat>) returns (k: nat)
      requires DirectionDraws(draws)
      requires exists j :: 0 <= j < |draws| && Some(Directions[draws[j]]) != direction
      modifies this`direction
      ensures k < |draws| && direction == Some(Directions[draws[k]])
      ensures direction != old(direction)
      ensures forall j :: 0 <= j < k ==> Some(Directions[draws[j]]) == old(direction)
      ensures k == FirstNew(draws, old(direction), 0)
    {
      k := 0;
      var d := Directions[draws[0]];
      while Some(d) == direction
        invariant k < |draws| && d == Directions[draws[k]]
        invariant forall j :: 0 <= j < k ==> Some(Directions[draws[j]]) == direction
        decreases |draws| - k
      {
        k := k + 1;
        d := Directions[draws[k]];
      }
      direction := Some(d);
    }

    /**
     * The cell one step away in the current direction, following its compass
     * letters: N is row - 1, S is row + 1, E is col + 1, W is col - 1.
     */
    function NextPosition(): (p: Cell)
      reads this
      requires position.Some? && direction.Some?
      ensures p == Ahead(position.value, direction.value)
      ensures p.row == position.value.row - 1 <==> 'N' in Letters(direction.value)
      ensures p.row == position.value.row + 1 <==> 'S' in Letters(direction.value)
      ensures p.col == position.value.col + 1 <==> 'E' in Letters(direction.value)
      ensures p.col == position.value.col - 1 <==> 'W' in Letters(direction.value)
      ensures -1 <= p.row - position.value.row <= 1 && -1 <= p.col - position.value.col <= 1
      ensures p != position.value
    {
      var name := Letters(direction.value);
      var r0 := position.value.row;
      var c0 := position.value.col;
      var r1 := if 'N' in name then r0 - 1 else r0;
      var r2 := if 'S' in name then r1 + 1 else r1;
      var c1 := if 'E' in name then c0 + 1 else c0;
      var c2 := if 'W' in name then c1 - 1 else c1;
      Cell(r2, c2)
    }

    /** One Bernoulli trial with probability `Pm`, on the draw `draw`. */
    method ShouldMove(draw: real) returns (moves: bool)
      requires 0.0 <= draw < 1.0
      ensures moves <==> draw < Pm
      ensures Pm <= 0.0 ==> !moves
      ensures Pm >= 1.0 ==> moves
    {
      moves := draw < Pm;
    }
  }

  /**
   * The index of the first draw, from `from` on, that names a direction other
   * than `current`: the draw the resampling loop of `ChooseDirection` accepts.
   */
  function FirstNew(draws: seq<nat>, current: Option<Direction>, from: nat): (k: nat)
    requires DirectionDraws(draws) && from <= |draws|
    requires exists j :: from <= j < |draws| && Some(Directions[draws[j]]) != current
    ensures from <= k < |draws| && Some(Directions[draws[k]]) != current
    ensures forall j :: from <= j < k ==> Some(Directions[draws[j]]) == current
    decreases |draws| - from
  {
    if Some(Directions[draws[from]]) != current then from
    else FirstNew(draws, current, from + 1)
  }

  /**
   * A draw sequence from which `ChooseDirection` can always pick a new
   * direction: two of its draws name different directions.
   */
  predicate Resamplable(draws: seq<nat>)
  {
    DirectionDraws(draws) &&
    exists a, b :: 0 <= a < |draws| && 0 <= b < |draws| && draws[a] != draws[b]
  }

  /** Whatever the current direction, a resamplable sequence holds a different one. */
  lemma ResamplableHasNew(draws: seq<nat>, current: Option<Direction>)
    requires Resamplable(draws)
    ensures exists j :: 0 <= j < |draws| && Some(Directions[draws[j]]) != current
  {
    var a, b :| 0 <= a < |draws| && 0 <= b < |draws| && draws[a] != draws[b];
    if Some(Directions[draws[a]]) != current {
    } else {
      assert Some(Directions[draws[b]]) != current;
    }
  }
}
