/**
 * The movement pass of one simulation tick, stated on values.
 *
 * The population is a sequence of (organism, fields) pairs; the grid is not
 * a separate value, because under the occupancy invariant the organism on a
 * cell is the one whose position names it (`Occupant`). `Turn` is one
 * organism's turn and `Moves` runs the turns in list order, each turn seeing
 * the positions that the earlier turns left, as the simulator's `step` loop
 * does.
 */
module Movement {
  import opened Wrappers
  import opened Organisms

  /** A cell with row and column in [0, n - 1]. */
  predicate InGrid(c: Cell, n: int)
  {
    0 <= c.row < n && 0 <= c.col < n
  }

  /** Every organism has a position and a direction. */
  predicate Located(ps: seq<(Organism, Snap)>)
  {
    forall k :: 0 <= k < |ps| ==> ps[k].1.position.Some? && ps[k].1.direction.Some?
  }

  /** Every organism sits inside the grid, and no two share a cell. */
  predicate Exclusive(ps: seq<(Organism, Snap)>, n: int)
  {
    (forall k :: 0 <= k < |ps| ==> ps[k].1.position.Some? && InGrid(ps[k].1.position.value, n)) &&
    (forall a, b :: 0 <= a < b < |ps| ==> ps[a].1.position != ps[b].1.position)
  }

  /** The last organism of `ps` whose position is `c`, if any. */
  function Occupant(ps: seq<(Organism, Snap)>, c: Cell): (r: Option<nat>)
    ensures r.Some? ==> r.value < |ps| && ps[r.value].1.position == Some(c)
    ensures r.None? ==> forall k :: 0 <= k < |ps| ==> ps[k].1.position != Some(c)
  {
    if ps == [] then None
    else if ps[|ps| - 1].1.position == Some(c) then Some(|ps| - 1)
    else Occupant(ps[..|ps| - 1], c)
  }

  /**
   * The transmission condition: one party is not healthy and the other is.
   * On well-formed flags it holds exactly when one party is infected and
   * the other is not; the other may be immune, since an immune organism
   * counts as healthy.
   */
  function Transmits(a: Snap, b: Snap): (fires: bool)
    ensures WellFormedSnap(a) && WellFormedSnap(b) ==>
      (fires <==> (HealthOfSnap(a) == Infected) != (HealthOfSnap(b) == Infected))
    ensures fires ==> HealthOfSnap(a) == Infected || HealthOfSnap(b) == Infected
    ensures HealthOfSnap(a) == Infected && HealthOfSnap(b) == Infected ==> !fires
    ensures HealthOfSnap(a) != Infected && HealthOfSnap(b) != Infected ==> !fires
  {
    (!a.healthy && b.healthy) || (!b.healthy && a.healthy)
  }

  /**
   * A transmission between the fields `a` of a mover and `b` of the organism
   * it runs into: the new fields of both and whether it fired.
   */
  function Contact(a: Snap, b: Snap): (r: (Snap, Snap, bool))
    ensures r.2 <==> Transmits(a, b)
    // only the contact flags can change, and a flag is only ever set
    ensures r.0 == a.(justInfected := r.0.justInfected) && r.1 == b.(justInfected := r.1.justInfected)
    // the healthy party of a firing pair is marked; nothing else is
    ensures r.0.justInfected == (a.justInfected || (r.2 && a.healthy))
    ensures r.1.justInfected == (b.justInfected || (r.2 && b.healthy))
  {
    if !a.healthy && b.healthy then (a, b.(justInfected := true), true)
    else if !b.healthy && a.healthy then (a.(justInfected := true), b, true)
    else (a, b, false)
  }

  /** `s` facing the direction that the resampling loop accepts from `draws`. */
  function Turned(s: Snap, draws: seq<nat>): (t: Snap)
    requires Resamplable(draws)
    ensures t == s.(direction := t.direction)
    ensures t.direction.Some? && t.direction != s.direction
  {
    ResamplableHasNew(draws, s.direction);
    s.(direction := Some(Directions[draws[FirstNew(draws, s.direction, 0)]]))
  }

  /**
   * One movement attempt of the organism at index `j` of `ps` on an `n` x `n`
   * grid, with `draws` the direction draws its resampling may use: into a
   * free in-bounds cell it steps; against a wall it takes a new direction;
   * against an occupant it first makes contact, then takes a new direction.
   * The result is the new pairs and whether a transmission fired.
   */
  function Attempt(ps: seq<(Organism, Snap)>, j: nat, n: int, draws: seq<nat>): (r: (seq<(Organism, Snap)>, bool))
    requires j < |ps| && Located(ps) && Resamplable(draws)
    ensures |r.0| == |ps|
  {
    var s := ps[j].1;
    var next := Ahead(s.position.value, s.direction.value);
    var occupant := if InGrid(next, n) then Occupant(ps, next) else None;
    if InGrid(next, n) && occupant.None? then
      (ps[j := (ps[j].0, s.(position := Some(next)))], false)
    else if occupant.None? then
      (ps[j := (ps[j].0, Turned(s, draws))], false)
    else
      var m := occupant.value;
      var c := Contact(s, ps[m].1);
      (ps[m := (ps[m].0, c.1)][j := (ps[j].0, Turned(c.0, draws))], c.2)
  }

  /**
   * The turn of the organism at index `j`: when it is mobile and its move
   * draw `draw` falls below its `Pm`, it attempts a move; otherwise nothing
   * changes.
   */
  function Turn(ps: seq<(Organism, Snap)>, j: nat, n: int, draw: real, draws: seq<nat>)
    : (r: (seq<(Organism, Snap)>, bool))
    requires j < |ps| && Located(ps) && Resamplable(draws)
    ensures |r.0| == |ps|
  {
    if ps[j].1.mobile && draw < ps[j].0.Pm then Attempt(ps, j, n, draws) else (ps, false)
  }

  /** Enough move draws and resamplable direction draws for every turn. */
  predicate Movable(ps: seq<(Organism, Snap)>, moveDraws: seq<real>, dirDraws: seq<seq<nat>>)
  {
    |ps| <= |moveDraws| && |ps| <= |dirDraws| &&
    forall k :: 0 <= k < |dirDraws| ==> Resamplable(dirDraws[k])
  }

  /**
   * The movement pass from index `j` on: the pairs it leaves and the number
   * of transmissions that fired. Turn `k` uses `moveDraws[k]` and
   * `dirDraws[k]`.
   */
  function Moves(ps: seq<(Organism, Snap)>, j: nat, n: int, moveDraws: seq<real>, dirDraws: seq<seq<nat>>)
    : (r: (seq<(Organism, Snap)>, nat))
    requires Movable(ps, moveDraws, dirDraws) && Located(ps) && j <= |ps|
    ensures |r.0| == |ps|
    ensures r.1 <= |ps| - j
    decreases |ps| - j
  {
    if j == |ps| then (ps, 0)
    else
      var t := Turn(ps, j, n, moveDraws[j], dirDraws[j]);
      TurnShape(ps, j, n, moveDraws[j], dirDraws[j]);
      var rest := Moves(t.0, j + 1, n, moveDraws, dirDraws);
      (rest.0, rest.1 + (if t.1 then 1 else 0))
  }

  /** The whole movement pass over `ps` leaves `out` and fires `count` transmissions. */
  predicate MovesTo(ps: seq<(Organism, Snap)>, n: int, moveDraws: seq<real>, dirDraws: seq<seq<nat>>,
                    out: seq<(Organism, Snap)>, count: int)
  {
    Movable(ps, moveDraws, dirDraws) && Located(ps) && Moves(ps, 0, n, moveDraws, dirDraws) == (out, count)
  }

  /** The movement pass from `j` on is turn `j` followed by the pass from `j + 1` on. */
  lemma MovesUnroll(ps: seq<(Organism, Snap)>, j: nat, n: int, moveDraws: seq<real>, dirDraws: seq<seq<nat>>)
    requires Movable(ps, moveDraws, dirDraws) && Located(ps) && j < |ps|
    ensures var t := Turn(ps, j, n, moveDraws[j], dirDraws[j]);
      Located(t.0) && Movable(t.0, moveDraws, dirDraws) &&
      var rest := Moves(t.0, j + 1, n, moveDraws, dirDraws);
      Moves(ps, j, n, moveDraws, dirDraws) == (rest.0, rest.1 + (if t.1 then 1 else 0))
  {
    TurnShape(ps, j, n, moveDraws[j], dirDraws[j]);
  }

  /** The movement pass never changes health flags, remaining time or mobility, and never clears a contact. */
  predicate HealthSame(s: Snap, t: Snap)
  {
    t.healthy == s.healthy && t.immune == s.immune && t.remainingTime == s.remainingTime &&
    t.mobile == s.mobile && (s.justInfected ==> t.justInfected)
  }

  /**
   * The movement outcome of an organism that was `before` at the start of
   * the movement pass, whose move draw was `draw`, and that ends it at
   * `position` facing `direction`: one that does not try to move keeps
   * its position and direction; one that tries either steps one cell ahead
   * keeping its direction, or stays and takes a new direction.
   */
  predicate MovedOrTurned(before: Snap, Pm: real, draw: real, position: Option<Cell>, direction: Option<Direction>)
  {
    if !(before.mobile && draw < Pm) then
      position == before.position && direction == before.direction
    else
      before.position.Some? && before.direction.Some? &&
      ((position == Some(Ahead(before.position.value, before.direction.value)) && direction == before.direction) ||
       (position == before.position && direction != before.direction))
  }

  /** A step always leaves the current cell. */
  lemma AheadMoves(c: Cell, d: Direction)
    ensures Ahead(c, d) != c
  {
    match d
    case N => case E => case S => case W =>
    case NE => case SE => case NW => case SW =>
  }

  /** A turn keeps every organism in its place in the list, with a position and a direction. */
  lemma TurnShape(ps: seq<(Organism, Snap)>, j: nat, n: int, draw: real, draws: seq<nat>)
    requires j < |ps| && Located(ps) && Resamplable(draws)
    ensures var r := Turn(ps, j, n, draw, draws);
      Located(r.0) && forall k :: 0 <= k < |ps| ==> r.0[k].0 == ps[k].0
  {
    var s := ps[j].1;
    var next := Ahead(s.position.value, s.direction.value);
    var occupant := if InGrid(next, n) then Occupant(ps, next) else None;
    if occupant.Some? {
      var m := occupant.value;
      var c := Contact(s, ps[m].1);
      assert forall k :: 0 <= k < |ps| && k != j && k != m ==> Attempt(ps, j, n, draws).0[k] == ps[k];
    }
  }

  /**
   * What an attempt does to the mover: it steps exactly when the cell ahead
   * is inside the grid and no organism's position names it; otherwise it
   * stays and takes a new direction, and a transmission fires exactly when
   * the cell ahead is occupied and the pair satisfies `Transmits`. No other
   * organism moves or turns.
   */
  lemma AttemptOutcome(ps: seq<(Organism, Snap)>, j: nat, n: int, draws: seq<nat>)
    requires j < |ps| && Located(ps) && Resamplable(draws)
    ensures var s := ps[j].1;
      var next := Ahead(s.position.value, s.direction.value);
      var r := Attempt(ps, j, n, draws);
      var free := InGrid(next, n) && Occupant(ps, next).None?;
      (free ==> r.0[j].1 == s.(position := Some(next)) && !r.1) &&
      (!free ==> r.0[j].1.position == s.position && r.0[j].1.direction != s.direction) &&
      (r.1 <==> InGrid(next, n) && Occupant(ps, next).Some? && Transmits(s, ps[Occupant(ps, next).value].1)) &&
      (forall k :: 0 <= k < |ps| && k != j ==>
         r.0[k].1.position == ps[k].1.position && r.0[k].1.direction == ps[k].1.direction)
  {
    var s := ps[j].1;
    AheadMoves(s.position.value, s.direction.value);
  }

  /**
   * The contacts an attempt makes: health flags, remaining time and mobility
   * never change and no contact is cleared; a newly set contact flag means a
   * transmission fired and its organism was healthy; when one fires, the
   * healthy party of the mover and the occupant ahead is the one marked.
   */
  lemma AttemptContacts(ps: seq<(Organism, Snap)>, j: nat, n: int, draws: seq<nat>)
    requires j < |ps| && Located(ps) && Resamplable(draws)
    ensures var r := Attempt(ps, j, n, draws);
      forall k :: 0 <= k < |ps| ==> HealthSame(ps[k].1, r.0[k].1)
    ensures var r := Attempt(ps, j, n, draws);
      forall k :: 0 <= k < |ps| && r.0[k].1.justInfected != ps[k].1.justInfected ==> r.1 && ps[k].1.healthy
    ensures var s := ps[j].1;
      var occupant := Occupant(ps, Ahead(s.position.value, s.direction.value));
      var r := Attempt(ps, j, n, draws);
      r.1 ==> occupant.Some? && (s.healthy ==> r.0[j].1.justInfected) &&
              (!s.healthy ==> r.0[occupant.value].1.justInfected)
  {
    var s := ps[j].1;
    var next := Ahead(s.position.value, s.direction.value);
    AheadMoves(s.position.value, s.direction.value);
    var r := Attempt(ps, j, n, draws);
    var occupant := if InGrid(next, n) then Occupant(ps, next) else None;
    if occupant.None? {
      assert !r.1;
      assert forall k :: 0 <= k < |ps| ==> r.0[k].1.justInfected == ps[k].1.justInfected;
    } else {
      var m := occupant.value;
      var c := Contact(s, ps[m].1);
      assert m != j;
      assert r == (ps[m := (ps[m].0, c.1)][j := (ps[j].0, Turned(c.0, draws))], c.2);
      assert r.0[j].1.justInfected == c.0.justInfected && r.0[m].1.justInfected == c.1.justInfected;
      assert forall k :: 0 <= k < |ps| && k != j && k != m ==> r.0[k] == ps[k];
    }
  }

  /** An attempt keeps every organism inside the grid and on a cell of its own. */
  lemma AttemptExclusive(ps: seq<(Organism, Snap)>, j: nat, n: int, draws: seq<nat>)
    requires j < |ps| && Located(ps) && Resamplable(draws) && Exclusive(ps, n)
    ensures Exclusive(Attempt(ps, j, n, draws).0, n)
  {
    AttemptOutcome(ps, j, n, draws);
  }

  /**
   * Over the whole pass from `j` on, every organism stays the same organism
   * with the same health flags, remaining time and mobility, and no contact
   * is cleared.
   */
  lemma {:induction false} MovesKeepHealth(ps: seq<(Organism, Snap)>, j: nat, n: int,
                                           moveDraws: seq<real>, dirDraws: seq<seq<nat>>)
    requires Movable(ps, moveDraws, dirDraws) && Located(ps) && j <= |ps|
    ensures var out := Moves(ps, j, n, moveDraws, dirDraws).0;
      forall k :: 0 <= k < |ps| ==> out[k].0 == ps[k].0 && HealthSame(ps[k].1, out[k].1)
    decreases |ps| - j
  {
    if j < |ps| {
      var t := Turn(ps, j, n, moveDraws[j], dirDraws[j]);
      TurnShape(ps, j, n, moveDraws[j], dirDraws[j]);
      AttemptContacts(ps, j, n, dirDraws[j]);
      assert forall k :: 0 <= k < |ps| ==> HealthSame(ps[k].1, t.0[k].1);
      MovesKeepHealth(t.0, j + 1, n, moveDraws, dirDraws);
    }
  }

  /**
   * Over the whole pass from `j` on, the organisms before `j` keep their
   * positions and directions, and each organism from `j` on either stays as
   * it was (not mobile, or its draw not below `Pm`) or steps one cell ahead
   * or stays and turns.
   */
  lemma {:induction false} MovesMoveOrTurn(ps: seq<(Organism, Snap)>, j: nat, n: int,
                                           moveDraws: seq<real>, dirDraws: seq<seq<nat>>)
    requires Movable(ps, moveDraws, dirDraws) && Located(ps) && j <= |ps|
    ensures var out := Moves(ps, j, n, moveDraws, dirDraws).0;
      (forall k :: 0 <= k < j ==>
         out[k].1.position == ps[k].1.position && out[k].1.direction == ps[k].1.direction) &&
      (forall k :: j <= k < |ps| ==>
         MovedOrTurned(ps[k].1, ps[k].0.Pm, moveDraws[k], out[k].1.position, out[k].1.direction))
    decreases |ps| - j
  {
    if j < |ps| {
      var t := Turn(ps, j, n, moveDraws[j], dirDraws[j]);
      MovesUnroll(ps, j, n, moveDraws, dirDraws);
      TurnMovesOrTurns(ps, j, n, moveDraws[j], dirDraws[j]);
      TurnShape(ps, j, n, moveDraws[j], dirDraws[j]);
      MovesMoveOrTurn(t.0, j + 1, n, moveDraws, dirDraws);
      var out := Moves(ps, j, n, moveDraws, dirDraws).0;
      assert out == Moves(t.0, j + 1, n, moveDraws, dirDraws).0;
      forall k | j < k < |ps|
        ensures MovedOrTurned(ps[k].1, ps[k].0.Pm, moveDraws[k], out[k].1.position, out[k].1.direction)
      {
        assert t.0[k].0 == ps[k].0;
        assert t.0[k].1.position == ps[k].1.position && t.0[k].1.direction == ps[k].1.direction;
        assert t.0[k].1.mobile == ps[k].1.mobile;
      }
    }
  }

  /**
   * One turn: the organism taking it ends moved or turned, and every other
   * organism keeps its position, direction and mobility.
   */
  lemma TurnMovesOrTurns(ps: seq<(Organism, Snap)>, j: nat, n: int, draw: real, draws: seq<nat>)
    requires j < |ps| && Located(ps) && Resamplable(draws)
    ensures var t := Turn(ps, j, n, draw, draws).0;
      MovedOrTurned(ps[j].1, ps[j].0.Pm, draw, t[j].1.position, t[j].1.direction) &&
      forall k :: 0 <= k < |ps| && k != j ==>
        t[k].1.position == ps[k].1.position && t[k].1.direction == ps[k].1.direction &&
        t[k].1.mobile == ps[k].1.mobile
  {
    if ps[j].1.mobile && draw < ps[j].0.Pm {
      AttemptOutcome(ps, j, n, draws);
      AttemptContacts(ps, j, n, draws);
    }
  }

  /** The pass keeps every organism inside the grid and on a cell of its own. */
  lemma {:induction false} MovesKeepExclusive(ps: seq<(Organism, Snap)>, j: nat, n: int,
                                              moveDraws: seq<real>, dirDraws: seq<seq<nat>>)
    requires Movable(ps, moveDraws, dirDraws) && Located(ps) && j <= |ps| && Exclusive(ps, n)
    ensures Exclusive(Moves(ps, j, n, moveDraws, dirDraws).0, n)
    decreases |ps| - j
  {
    if j < |ps| {
      var t := Turn(ps, j, n, moveDraws[j], dirDraws[j]);
      TurnShape(ps, j, n, moveDraws[j], dirDraws[j]);
      AttemptExclusive(ps, j, n, dirDraws[j]);
      MovesKeepExclusive(t.0, j + 1, n, moveDraws, dirDraws);
    }
  }

  /**
   * A contact flag the pass newly sets belongs to an organism that was
   * healthy, and it means at least one transmission fired.
   */
  lemma {:induction false} MovesContacts(ps: seq<(Organism, Snap)>, j: nat, n: int,
                                         moveDraws: seq<real>, dirDraws: seq<seq<nat>>)
    requires Movable(ps, moveDraws, dirDraws) && Located(ps) && j <= |ps|
    ensures var r := Moves(ps, j, n, moveDraws, dirDraws);
      forall k :: 0 <= k < |ps| && r.0[k].1.justInfected && !ps[k].1.justInfected ==>
        ps[k].1.healthy && r.1 > 0
    decreases |ps| - j
  {
    if j < |ps| {
      var t := Turn(ps, j, n, moveDraws[j], dirDraws[j]);
      TurnShape(ps, j, n, moveDraws[j], dirDraws[j]);
      AttemptContacts(ps, j, n, dirDraws[j]);
      MovesContacts(t.0, j + 1, n, moveDraws, dirDraws);
    }
  }
}
