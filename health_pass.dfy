/**
 * The health-resolution pass of one simulation tick, stated on values.
 *
 * `Resolve` is what the pass does to one organism; `Pass` runs it over the
 * population in order, the way the simulator's `update` loop does: an
 * organism that dies is removed from the list, and the index still moves on,
 * so the organism that followed it is not visited in that tick.
 */
module HealthPass {
  import opened Wrappers
  import opened Organisms

  /** The allowed health-state changes within one tick (death aside). */
  predicate Transition(a: Health, b: Health)
  {
    a == b || (a == Susceptible && b == Infected) || (a == Infected && b == Immune)
  }

  /**
   * What one tick may do to an organism that survives it: move along the
   * health state machine, keep its flags well formed, and keep its position,
   * mobility and direction.
   */
  predicate Evolves(s: Snap, t: Snap)
  {
    Transition(HealthOfSnap(s), HealthOfSnap(t)) && WellFormedSnap(t) &&
    t.position == s.position && t.mobile == s.mobile && t.direction == s.direction
  }

  /**
   * One organism's health resolution, for death probability `Pd`, infection
   * duration draw `duration` and death draw `draw`; the result is the new
   * state and whether the organism dies.
   */
  function Resolve(Pd: real, s: Snap, duration: nat, draw: real): (r: (Snap, bool))
    // a pending contact on a non-immune organism makes it sick, with no decrement this tick
    ensures s.justInfected && !s.immune ==>
      !r.1 && HealthOfSnap(r.0) == Infected && !r.0.justInfected && r.0.remainingTime == duration
    // an immune organism is left as it is, pending contact or not
    ensures s.immune && s.healthy ==> r == (s, false)
    // a sick organism loses one tick; at zero or below it dies or becomes immune
    ensures !(s.justInfected && !s.immune) && !s.healthy ==>
      r.0.remainingTime == s.remainingTime - 1 &&
      (s.remainingTime - 1 > 0 ==> !r.1 && r.0 == s.(remainingTime := s.remainingTime - 1)) &&
      (s.remainingTime - 1 <= 0 ==> (r.1 <==> draw < Pd)) &&
      (s.remainingTime - 1 <= 0 && r.1 ==> r.0 == s.(remainingTime := s.remainingTime - 1)) &&
      (s.remainingTime - 1 <= 0 && !r.1 ==>
         r.0 == s.(remainingTime := s.remainingTime - 1, healthy := true, immune := true) &&
         HealthOfSnap(r.0) == Immune)
    // a susceptible organism without a pending contact is left as it is
    ensures !s.justInfected && s.healthy ==> r == (s, false)
    // only an infected organism can die, and a survivor follows the state machine
    ensures r.1 ==> HealthOfSnap(s) == Infected
    ensures WellFormedSnap(s) && !r.1 ==> Evolves(s, r.0)
  {
    if s.justInfected && !s.immune then
      (s.(healthy := false, remainingTime := duration, justInfected := false), false)
    else if !s.healthy then
      var t := s.remainingTime - 1;
      if t <= 0 then
        if draw < Pd then (s.(remainingTime := t), true)
        else (s.(remainingTime := t, healthy := true, immune := true), false)
      else (s.(remainingTime := t), false)
    else (s, false)
  }

  /** Enough draws for every slot the pass can visit. */
  predicate Drawable(pop: seq<(Organism, Snap)>, durations: seq<nat>, draws: seq<real>)
  {
    |pop| <= |durations| && |pop| <= |draws|
  }

  /**
   * One slot of the pass: the organism at list index `i` is resolved, and
   * removed from the list when it dies.
   */
  function PassStep(pop: seq<(Organism, Snap)>, i: nat, duration: nat, draw: real): (next: seq<(Organism, Snap)>)
    requires i < |pop|
    // a dying organism leaves the list and the later ones close up; a survivor takes its resolved fields
    ensures var r := Resolve(pop[i].0.Pd, pop[i].1, duration, draw);
      |next| == |pop| - (if r.1 then 1 else 0) &&
      (forall k :: 0 <= k < i ==> next[k] == pop[k]) &&
      (forall k :: i < k < |pop| ==> next[if r.1 then k - 1 else k] == pop[k]) &&
      (!r.1 ==> next[i] == (pop[i].0, r.0))
  {
    var r := Resolve(pop[i].0.Pd, pop[i].1, duration, draw);
    if r.1 then pop[..i] + pop[i + 1..]
    else pop[i := (pop[i].0, r.0)]
  }

  /**
   * The pass from list index `i` on. The draws are indexed by the loop
   * counter: slot `i` uses `durations[i]` and `draws[i]`.
   */
  function Pass(pop: seq<(Organism, Snap)>, i: nat, durations: seq<nat>, draws: seq<real>)
    : (r: seq<(Organism, Snap)>)
    requires Drawable(pop, durations, draws)
    // organisms are only removed, at most one per visited slot
    ensures |r| <= |pop|
    ensures i <= |pop| ==> i <= |r|
    decreases |pop| - i
  {
    if i >= |pop| then pop
    else Pass(PassStep(pop, i, durations[i], draws[i]), i + 1, durations, draws)
  }

  /** The pass from slot `i` is slot `i` followed by the pass from slot `i + 1`. */
  lemma PassUnroll(pop: seq<(Organism, Snap)>, i: nat, durations: seq<nat>, draws: seq<real>,
                   next: seq<(Organism, Snap)>)
    requires Drawable(pop, durations, draws) && i < |pop|
    requires next == PassStep(pop, i, durations[i], draws[i])
    ensures Drawable(next, durations, draws)
    ensures Pass(next, i + 1, durations, draws) == Pass(pop, i, durations, draws)
  {
  }

  /** The pass never touches the entries before the index it starts at. */
  lemma {:induction false} PassKeepsPrefix(pop: seq<(Organism, Snap)>, i: nat,
                                           durations: seq<nat>, draws: seq<real>)
    requires Drawable(pop, durations, draws)
    ensures var out := Pass(pop, i, durations, draws);
      forall k :: 0 <= k < i && k < |pop| ==> k < |out| && out[k] == pop[k]
    decreases |pop| - i
  {
    if i < |pop| {
      var next := PassStep(pop, i, durations[i], draws[i]);
      PassKeepsPrefix(next, i + 1, durations, draws);
    }
  }

  /**
   * The removal quirk: when the organism at slot `i` dies, the organism right
   * after it moves into slot `i` and is passed over, so it ends the tick
   * exactly as it began.
   */
  lemma PassSkipsSuccessorOfDead(pop: seq<(Organism, Snap)>, i: nat,
                                 durations: seq<nat>, draws: seq<real>)
    requires Drawable(pop, durations, draws)
    requires i + 1 < |pop| && Resolve(pop[i].0.Pd, pop[i].1, durations[i], draws[i]).1
    ensures var out := Pass(pop, i, durations, draws);
      i < |out| && out[i] == pop[i + 1]
  {
    var next := PassStep(pop, i, durations[i], draws[i]);
    PassKeepsPrefix(next, i + 1, durations, draws);
  }

  /**
   * `q` evolved from an entry of `orig` for the same organism; when
   * `untouched`, it is still exactly that entry.
   */
  predicate TracedTo(orig: seq<(Organism, Snap)>, q: (Organism, Snap), untouched: bool)
  {
    exists k :: 0 <= k < |orig| && orig[k].0 == q.0 &&
                (untouched ==> q.1 == orig[k].1) && Evolves(orig[k].1, q.1)
  }

  /** Organism `o` has an entry in `ps`. */
  predicate Present(ps: seq<(Organism, Snap)>, o: Organism)
  {
    exists m :: 0 <= m < |ps| && ps[m].0 == o
  }

  /**
   * Every organism that comes out of the pass went into it, and its state
   * followed the health state machine; nothing else about it changed.
   */
  lemma PassFollowsStateMachine(pop: seq<(Organism, Snap)>, durations: seq<nat>, draws: seq<real>)
    requires Drawable(pop, durations, draws)
    requires forall k :: 0 <= k < |pop| ==> WellFormedSnap(pop[k].1)
    ensures forall q :: q in Pass(pop, 0, durations, draws) ==> TracedTo(pop, q, false)
  {
    forall m | 0 <= m < |pop|
      ensures TracedTo(pop, pop[m], m >= 0)
    {
      assert Evolves(pop[m].1, pop[m].1);
    }
    PassFollowsFrom(pop, pop, 0, durations, draws);
  }

  /**
   * The induction behind `PassFollowsStateMachine`: every entry of `pop`
   * evolved from an entry of `orig`, and those from slot `i` on are still
   * as they were in `orig`.
   */
  lemma {:induction false} PassFollowsFrom(orig: seq<(Organism, Snap)>, pop: seq<(Organism, Snap)>, i: nat,
                                           durations: seq<nat>, draws: seq<real>)
    requires Drawable(pop, durations, draws)
    requires forall k :: 0 <= k < |orig| ==> WellFormedSnap(orig[k].1)
    requires forall m :: 0 <= m < |pop| ==> TracedTo(orig, pop[m], m >= i)
    ensures forall q :: q in Pass(pop, i, durations, draws) ==> TracedTo(orig, q, false)
    decreases |pop| - i
  {
    if i >= |pop| {
      forall q | q in pop
        ensures TracedTo(orig, q, false)
      {
        var m :| 0 <= m < |pop| && pop[m] == q;
        assert TracedTo(orig, pop[m], m >= i);
      }
    } else {
      var r := Resolve(pop[i].0.Pd, pop[i].1, durations[i], draws[i]);
      var next := PassStep(pop, i, durations[i], draws[i]);
      forall m | 0 <= m < |next|
        ensures TracedTo(orig, next[m], m >= i + 1)
      {
        if m < i {
          assert TracedTo(orig, pop[m], false);
        } else if !r.1 && m == i {
          assert TracedTo(orig, pop[i], true);
          var k :| 0 <= k < |orig| && orig[k].0 == pop[i].0 && pop[i].1 == orig[k].1 && Evolves(orig[k].1, pop[i].1);
          assert next[m] == (pop[i].0, r.0) && Evolves(orig[k].1, next[m].1);
        } else if r.1 {
          assert TracedTo(orig, pop[m + 1], true);
        } else {
          assert TracedTo(orig, pop[m], true);
        }
      }
      PassFollowsFrom(orig, next, i + 1, durations, draws);
    }
  }

  /**
   * Only an infected organism can leave the population during the pass:
   * every organism that is not infected when the pass starts is still in
   * the population when it ends.
   */
  lemma {:induction false} PassRemovesOnlyInfected(pop: seq<(Organism, Snap)>, i: nat,
                                                   durations: seq<nat>, draws: seq<real>)
    requires Drawable(pop, durations, draws)
    ensures forall k :: 0 <= k < |pop| && HealthOfSnap(pop[k].1) != Infected ==>
      Present(Pass(pop, i, durations, draws), pop[k].0)
    decreases |pop| - i
  {
    var out := Pass(pop, i, durations, draws);
    if i >= |pop| {
      forall k | 0 <= k < |pop| && HealthOfSnap(pop[k].1) != Infected
        ensures Present(out, pop[k].0)
      {
        assert out[k].0 == pop[k].0;
      }
    } else {
      var r := Resolve(pop[i].0.Pd, pop[i].1, durations[i], draws[i]);
      var next := PassStep(pop, i, durations[i], draws[i]);
      PassRemovesOnlyInfected(next, i + 1, durations, draws);
      PassKeepsPrefix(next, i + 1, durations, draws);
      assert out == Pass(next, i + 1, durations, draws);
      forall k | 0 <= k < |pop| && HealthOfSnap(pop[k].1) != Infected
        ensures Present(out, pop[k].0)
      {
        if k < i {
          assert out[k].0 == pop[k].0;
        } else if k == i {
          assert !r.1;
          assert out[i] == next[i];
          assert out[i].0 == pop[k].0;
        } else if r.1 {
          assert Present(out, next[k - 1].0);
        } else {
          assert Present(out, next[k].0);
        }
      }
    }
  }
}
