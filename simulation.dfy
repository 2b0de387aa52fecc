/**
 * The simulation engine: an N x N grid of cells, each holding at most one
 * organism, the population list, and the counters of one run.
 *
 * The grid (`matrix`) and the population list hold the same organism
 * objects. `Valid` is the occupancy invariant that ties them together:
 * every organism in the population sits on the in-bounds cell its position
 * names, and every occupied cell holds a member of the population whose
 * position is that cell.
 */
module Simulations {
  import opened Wrappers
  import opened Organisms
  import opened HealthPass
  import opened Shuffles
  import opened Movement

  /** The simulator's options dictionary. */
  datatype Options = Options(N: int, M: int, X: real, S: real, K: real, Pm: real, Pd: real)

  /**
   * What one tick returns: whether a transmission happened in its movement
   * pass, or the division by zero of the statistics update on an empty
   * population (an exception in the simulator, which ends the tick there).
   */
  datatype StepOutcome = Advanced(newInfections: bool) | DivisionByZero

  /** No organism occurs twice in `pop`. */
  predicate Distinct(pop: seq<Organism>)
  {
    forall i, j :: 0 <= i < j < |pop| ==> pop[i] != pop[j]
  }

  /**
   * The movement pass takes `ps` to `out` while a running transmission
   * counter goes from `before` to `after`.
   */
  predicate MovesBetween(ps: seq<(Organism, Snap)>, n: int, moveDraws: seq<real>, dirDraws: seq<seq<nat>>,
                         out: seq<(Organism, Snap)>, before: int, after: int)
  {
    MovesTo(ps, n, moveDraws, dirDraws, out, after - before)
  }

  /** Each organism of `pop` paired with the current value of its fields. */
  function Pairs(pop: seq<Organism>): (ps: seq<(Organism, Snap)>)
    reads pop
    ensures |ps| == |pop|
    ensures forall k :: 0 <= k < |pop| ==> ps[k] == (pop[k], pop[k].Snapshot())
  {
    seq(|pop|, k requires 0 <= k < |pop| reads pop => (pop[k], pop[k].Snapshot()))
  }

  /**
   * When the entries of `ps` are infected exactly at the positions where
   * `order` holds an index below `bound`, they count as many infected as
   * `order` has entries below `bound`.
   */
  lemma {:induction false} CountFollowsOrder(ps: seq<(Organism, Snap)>, order: seq<nat>, bound: nat)
    requires |ps| == |order|
    requires forall k :: 0 <= k < |ps| ==> (!ps[k].1.healthy <==> order[k] < bound)
    ensures Sick(ps) == Below(order, bound)
  {
    if ps != [] {
      CountFollowsOrder(ps[..|ps| - 1], order[..|order| - 1], bound);
    }
  }

  /**
   * The random outcomes that initializing the population consumes:
   * - `sickCount` and `stationaryCount`, the rounded `X * M` and `S * M`;
   * - `durations[i]`, the infection duration of the `i`-th organism created
   *   sick (the sick ones are created first);
   * - `dirChoices[i]`, the direction draw of the `i`-th organism created;
   * - `order`, the shuffle: the organism at index `k` of the population is
   *   the one created `order[k]`-th;
   * - `cells[k]`, the free cell on which the rejection sampling settles for
   *   the organism at index `k`.
   */
  datatype Setup = Setup(sickCount: nat, stationaryCount: nat, durations: seq<nat>,
                         dirChoices: seq<nat>, order: seq<nat>, cells: seq<Cell>)

  /** `setup` holds what initializing `m` organisms consumes. */
  predicate Covers(setup: Setup, m: nat)
  {
    setup.sickCount <= m && setup.stationaryCount <= m &&
    setup.sickCount <= |setup.durations| && m <= |setup.dirChoices| && DirectionDraws(setup.dirChoices) &&
    IsShuffle(setup.order, m) && |setup.cells| == m
  }

  /**
   * The fields of a newly created organism: sick for `duration` ticks or
   * healthy, never immune, no pending contact, mobile, not yet placed, and
   * facing the direction that `choice` draws.
   */
  function Newborn(sick: bool, duration: nat, choice: nat): Snap
    requires choice < |Directions|
  {
    Snap(!sick, false, false, true, if sick then duration else 0, None, Some(Directions[choice]))
  }

  /** The fields of the first `n` organisms the creation loops make. */
  function CreationFields(setup: Setup, n: nat): (ss: seq<Snap>)
    requires setup.sickCount <= |setup.durations| && n <= |setup.dirChoices| && DirectionDraws(setup.dirChoices)
    ensures |ss| == n
  {
    seq(n, i requires 0 <= i < n =>
      Newborn(i < setup.sickCount, if i < setup.sickCount then setup.durations[i] else 0, setup.dirChoices[i]))
  }

  /** `s` rearranged by the shuffle `order`. */
  function Shuffled<T>(s: seq<T>, order: seq<nat>): (t: seq<T>)
    requires IsShuffle(order, |s|)
    ensures |t| == |s|
  {
    seq(|s|, k requires 0 <= k < |s| => s[order[k]])
  }

  /** A shuffle of distinct organisms holds distinct organisms. */
  lemma ShuffledDistinct(pop: seq<Organism>, order: seq<nat>)
    requires IsShuffle(order, |pop|) && Distinct(pop)
    ensures Distinct(Shuffled(pop, order))
  {
    ShuffleInjective(order, |pop|);
  }

  /** Every organism of `pop` has move probability `Pm` and death probability `Pd`. */
  predicate Tuned(pop: seq<Organism>, Pm: real, Pd: real)
  {
    forall k :: 0 <= k < |pop| ==> pop[k].Pm == Pm && pop[k].Pd == Pd
  }

  /** The current fields of each organism of `pop`. */
  function Snaps(pop: seq<Organism>): (ss: seq<Snap>)
    reads pop
    ensures |ss| == |pop|
    ensures forall k :: 0 <= k < |pop| ==> ss[k] == pop[k].Snapshot()
  {
    seq(|pop|, k requires 0 <= k < |pop| reads pop => pop[k].Snapshot())
  }

  /** The fields of a shuffled list are the shuffled fields. */
  lemma SnapsShuffled(pop: seq<Organism>, order: seq<nat>)
    requires IsShuffle(order, |pop|)
    ensures Snaps(Shuffled(pop, order)) == Shuffled(Snaps(pop), order)
  {
  }

  /** `ss` with its first `n` entries made immobile. */
  function Immobile(ss: seq<Snap>, n: nat): (ts: seq<Snap>)
    ensures |ts| == |ss|
  {
    seq(|ss|, k requires 0 <= k < |ss| => if k < n then ss[k].(mobile := false) else ss[k])
  }

  /** `ss` with its first `n` entries placed on `cells`. */
  function Placing(ss: seq<Snap>, cells: seq<Cell>, n: nat): (ts: seq<Snap>)
    requires n <= |cells|
    ensures |ts| == |ss|
  {
    seq(|ss|, k requires 0 <= k < |ss| => if k < n then ss[k].(position := Some(cells[k])) else ss[k])
  }

  /**
   * The fields of the organisms after initialization, in population order:
   * the created ones, shuffled, the first `stationaryCount` made immobile,
   * each placed on its cell.
   */
  function Layout(setup: Setup, m: nat): (ss: seq<Snap>)
    requires Covers(setup, m)
    ensures |ss| == m
  {
    Placing(Immobile(Shuffled(CreationFields(setup, m), setup.order), setup.stationaryCount), setup.cells, m)
  }

  /**
   * What initialization gives the organism at index `k` of the population:
   * the fields of the organism created `order[k]`-th (sick exactly when that
   * is below `sickCount`), mobile exactly when `k` is not among the first
   * `stationaryCount`, and placed on `cells[k]`.
   */
  lemma InitialState(setup: Setup, m: nat)
    requires Covers(setup, m)
    ensures forall k :: 0 <= k < m ==>
      var i := setup.order[k];
      Layout(setup, m)[k] ==
        Newborn(i < setup.sickCount, if i < setup.sickCount then setup.durations[i] else 0, setup.dirChoices[i])
          .(mobile := k >= setup.stationaryCount, position := Some(setup.cells[k])) &&
      (HealthOfSnap(Layout(setup, m)[k]) == Infected <==> i < setup.sickCount) &&
      (HealthOfSnap(Layout(setup, m)[k]) == Susceptible <==> i >= setup.sickCount)
  {
  }

  /**
   * After initialization exactly `sickCount` organisms are infected,
   * however the shuffle rearranged them.
   */
  lemma InitialCount(pop: seq<Organism>, setup: Setup)
    requires Covers(setup, |pop|) && Snaps(pop) == Layout(setup, |pop|)
    ensures Sick(Pairs(pop)) == setup.sickCount
  {
    InitialState(setup, |pop|);
    assert forall k :: 0 <= k < |pop| ==> pop[k].Snapshot() == Snaps(pop)[k];
    CountFollowsOrder(Pairs(pop), setup.order, setup.sickCount);
    ShuffleKeepsCount(setup.order, |pop|, setup.sickCount);
  }

  /** The number of pairs of `ps` whose organism is not healthy. */
  function Sick(ps: seq<(Organism, Snap)>): (n: nat)
    ensures n <= |ps|
    ensures n == 0 <==> forall k :: 0 <= k < |ps| ==> ps[k].1.healthy
    ensures n == |ps| <==> forall k :: 0 <= k < |ps| ==> !ps[k].1.healthy
  {
    if ps == [] then 0
    else Sick(ps[..|ps| - 1]) + (if ps[|ps| - 1].1.healthy then 0 else 1)
  }

  /** The share of the pairs `ps` that is infected: the simulator's `infection_rate`. */
  function RateOf(ps: seq<(Organism, Snap)>): (rate: real)
    requires |ps| > 0
    ensures 0.0 <= rate <= 1.0
    ensures rate == 0.0 <==> forall k :: 0 <= k < |ps| ==> ps[k].1.healthy
    ensures rate == 1.0 <==> forall k :: 0 <= k < |ps| ==> !ps[k].1.healthy
  {
    FractionBounds(Sick(ps), |ps|);
    Sick(ps) as real / |ps| as real
  }

  /** A count out of a positive total is a fraction in [0, 1], at the ends exactly for none and all. */
  lemma FractionBounds(n: nat, m: nat)
    requires 0 < m && n <= m
    ensures 0.0 <= n as real / m as real <= 1.0
    ensures n as real / m as real == 0.0 <==> n == 0
    ensures n as real / m as real == 1.0 <==> n == m
  {
    var q := n as real / m as real;
    assert q * m as real == n as real;
    assert q <= 1.0 by {
      if q > 1.0 {
        assert q * m as real > m as real;
      }
    }
  }

  /**
   * The organisms of `pop` are those of `ps`, in order, with the health
   * flags, remaining time and mobility `ps` records; a contact `ps` records
   * is still pending (the movement pass may add contacts, never clear them).
   */
  predicate HealthAgrees(pop: seq<Organism>, ps: seq<(Organism, Snap)>)
    reads pop
  {
    |pop| == |ps| &&
    forall k :: 0 <= k < |pop| ==>
      pop[k] == ps[k].0 && pop[k].healthy == ps[k].1.healthy && pop[k].immune == ps[k].1.immune &&
      pop[k].remainingTime == ps[k].1.remainingTime && pop[k].mobile == ps[k].1.mobile &&
      (ps[k].1.justInfected ==> pop[k].justInfected)
  }

  /**
   * Partway through the movement pass, before turn `j`: the rest of the
   * pass takes `ps` to `out`, and a transmission counter that stood at
   * `before` when the pass began and stands at `now` ends `count` above
   * `before`.
   */
  predicate PassUnderway(ps: seq<(Organism, Snap)>, j: nat, n: int, moveDraws: seq<real>, dirDraws: seq<seq<nat>>,
                         out: seq<(Organism, Snap)>, count: int, before: int, now: int)
  {
    Movable(ps, moveDraws, dirDraws) && Located(ps) && j <= |ps| &&
    var rest := Moves(ps, j, n, moveDraws, dirDraws);
    rest.0 == out && now - before + rest.1 == count
  }

  /** Turn `j` moves the pass one turn on, adding its transmission to the counter. */
  lemma TurnAdvances(ps: seq<(Organism, Snap)>, j: nat, n: int, moveDraws: seq<real>, dirDraws: seq<seq<nat>>,
                     out: seq<(Organism, Snap)>, count: int, before: int, now: int,
                     next: seq<(Organism, Snap)>, later: int)
    requires PassUnderway(ps, j, n, moveDraws, dirDraws, out, count, before, now) && j < |ps|
    requires var t := Turn(ps, j, n, moveDraws[j], dirDraws[j]);
      next == t.0 && later == now + (if t.1 then 1 else 0)
    ensures PassUnderway(next, j + 1, n, moveDraws, dirDraws, out, count, before, later)
  {
    MovesUnroll(ps, j, n, moveDraws, dirDraws);
  }

  /** A pass that has taken its last turn has reached the state and count of the whole pass. */
  lemma PassFinished(ps: seq<(Organism, Snap)>, n: int, moveDraws: seq<real>, dirDraws: seq<seq<nat>>,
                     out: seq<(Organism, Snap)>, before: int, now: int)
    requires Movable(ps, moveDraws, dirDraws) && Located(ps)
    requires var total := Moves(ps, 0, n, moveDraws, dirDraws);
      PassUnderway(out, |out|, n, moveDraws, dirDraws, total.0, total.1, before, now)
    ensures MovesBetween(ps, n, moveDraws, dirDraws, out, before, now)
  {
  }

  /** A population whose pairs the movement pass produced from `ps` agrees with `ps` on health. */
  lemma MovedKeepsHealth(pop: seq<Organism>, ps: seq<(Organism, Snap)>, n: int,
                         moveDraws: seq<real>, dirDraws: seq<seq<nat>>)
    requires Movable(ps, moveDraws, dirDraws) && Located(ps)
    requires Pairs(pop) == Moves(ps, 0, n, moveDraws, dirDraws).0
    ensures HealthAgrees(pop, ps)
  {
    MovesKeepHealth(ps, 0, n, moveDraws, dirDraws);
  }

  /** The pairs of a population agree with it. */
  lemma PairsAgree(pop: seq<Organism>)
    ensures HealthAgrees(pop, Pairs(pop))
  {
  }

  /**
   * `before` paired each organism of `pop` with its fields, and only the
   * organism at index `i` may have changed since.
   */
  predicate OthersAsBefore(pop: seq<Organism>, i: nat, before: seq<(Organism, Snap)>)
    reads pop
  {
    i < |pop| == |before| &&
    forall k :: 0 <= k < |pop| && k != i ==> before[k] == (pop[k], pop[k].Snapshot())
  }

  /** Changing the fields of the organism at index `i` alone changes only entry `i` of the pairs. */
  lemma PairsAfterOneChange(pop: seq<Organism>, i: nat, before: seq<(Organism, Snap)>)
    requires OthersAsBefore(pop, i, before)
    ensures Pairs(pop) == before[i := (pop[i], pop[i].Snapshot())]
  {
  }

  /**
   * Changing the fields of the organisms at indices `i` and `m` alone
   * changes only entries `i` and `m` of the pairs.
   */
  lemma PairsAfterTwoChanges(pop: seq<Organism>, i: nat, m: nat, before: seq<(Organism, Snap)>)
    requires i < |pop| == |before| && m < |pop|
    requires forall k :: 0 <= k < |pop| && k != i && k != m ==> before[k] == (pop[k], pop[k].Snapshot())
    ensures Pairs(pop) == before[m := (pop[m], pop[m].Snapshot())][i := (pop[i], pop[i].Snapshot())]
  {
  }

  /** Removing the organism at index `i` then removes entry `i` of the pairs. */
  lemma PairsAfterRemoval(pop: seq<Organism>, i: nat, before: seq<(Organism, Snap)>)
    requires OthersAsBefore(pop, i, before)
    ensures Pairs(pop[..i] + pop[i + 1..]) == before[..i] + before[i + 1..]
  {
    var rest := pop[..i] + pop[i + 1..];
    assert forall k :: 0 <= k < |rest| ==> rest[k] == pop[if k < i then k else k + 1];
  }

  class Simulation {
    var T: int
    const N: int
    const M: int
    const X: real
    const S: real
    const K: real
    const Pm: real
    const Pd: real
    var population: seq<Organism>
    var maxInfectionRate: real
    var maxInfectionTime: int
    var totalInfected: int
    var totalDeaths: int
    const matrix: array2<Organism?>

    /** The number of rows (and columns) of `matrix`: `N`, or none when `N` is negative. */
    function Side(): nat
    {
      if N < 0 then 0 else N
    }

    /** A cell with row and column in [0, N - 1]. */
    predicate InBounds(c: Cell)
    {
      InGrid(c, N)
    }

    predicate Shaped()
    {
      matrix.Length0 == Side() && matrix.Length1 == Side()
    }

    /** `o` has a well-formed state and sits on the in-bounds cell its position names. */
    ghost predicate Placed(o: Organism)
      reads matrix, o
    {
      Shaped() && o.WellFormed() && o.position.Some? && InBounds(o.position.value) &&
      matrix[o.position.value.row, o.position.value.col] == o
    }

    /** The occupancy invariant. */
    ghost predicate Valid()
      reads this`population, matrix, population
    {
      Shaped() && Distinct(population) &&
      (forall i :: 0 <= i < |population| ==> Placed(population[i])) &&
      (forall r, c :: 0 <= r < Side() && 0 <= c < Side() && matrix[r, c] != null ==>
         matrix[r, c] in population && matrix[r, c].position == Some(Cell(r, c)))
    }

    /**
     * Deaths are counted twice, once in `Kill` and once in `Update`, so the
     * death counter is twice the number of organisms lost.
     */
    ghost predicate Conserves()
      reads this`totalDeaths, this`population
    {
      totalDeaths == 2 * (M - |population|)
    }

    constructor (opts: Options)
      ensures N == opts.N && M == opts.M && X == opts.X && S == opts.S && K == opts.K
      ensures Pm == opts.Pm && Pd == opts.Pd
      ensures T == 0 && population == [] && totalInfected == 0 && totalDeaths == 0
      ensures maxInfectionRate == 0.0 && maxInfectionTime == 0
      ensures Valid() && fresh(matrix)
      ensures forall r, c :: 0 <= r < Side() && 0 <= c < Side() ==> matrix[r, c] == null
    {
      T := 0;
      N := opts.N;
      M := opts.M;
      X := opts.X;
      S := opts.S;
      K := opts.K;
      Pm := opts.Pm;
      Pd := opts.Pd;
      population := [];
      maxInfectionRate := 0.0;
      maxInfectionTime := 0;
      totalInfected := 0;
      totalDeaths := 0;
      var side := if opts.N < 0 then 0 else opts.N;
      matrix := new Organism?[side, side]((r, c) => null);
    }

    /** No cell of the grid is occupied. */
    ghost predicate Empty()
      reads matrix
    {
      forall r, c :: 0 <= r < matrix.Length0 && 0 <= c < matrix.Length1 ==> matrix[r, c] == null
    }

    /**
     * Fills the population and the grid for a run, from the random outcomes
     * in `setup`. The population ends up with `M` new organisms whose fields
     * `Layout` gives, each on its own cell of the grid.
     */
    method InitializePopulation(setup: Setup)
      requires Valid() && population == [] && 0 <= M && Covers(setup, M) && Spread(setup.cells)
      modifies this`population, this`totalInfected, matrix
      ensures Valid() && |population| == M
      ensures totalInfected == old(totalInfected) + setup.sickCount
      ensures Sick(Pairs(population)) == setup.sickCount
      ensures Conserves() <==> totalDeaths == 0
      ensures forall k :: 0 <= k < M ==> fresh(population[k])
      ensures Tuned(population, Pm, Pd)
      ensures Snaps(population) == Layout(setup, M)
    {
      var shuffled := CreateShuffled(setup);
      Arrange(shuffled, setup.stationaryCount, setup.cells);
      InitialCount(population, setup);
    }

    /** The creation loops followed by the shuffle of the list they build. */
    method CreateShuffled(setup: Setup) returns (shuffled: seq<Organism>)
      requires 0 <= M && Covers(setup, M)
      modifies this`totalInfected
      ensures |shuffled| == M && Distinct(shuffled) && Tuned(shuffled, Pm, Pd)
      ensures forall k :: 0 <= k < M ==> shuffled[k].WellFormed()
      ensures Snaps(shuffled) == Shuffled(CreationFields(setup, M), setup.order)
      ensures totalInfected == old(totalInfected) + setup.sickCount
      ensures forall k :: 0 <= k < M ==> fresh(shuffled[k])
    {
      var created := CreateOrganisms(setup);
      shuffled := Shuffled(created, setup.order);
      ShuffleKeepsCreation(created, setup);
      assert forall k :: 0 <= k < M ==> setup.order[k] < M && shuffled[k] == created[setup.order[k]];
    }

    /** `cells` are distinct cells inside the grid. */
    predicate Spread(cells: seq<Cell>)
    {
      (forall k :: 0 <= k < |cells| ==> InBounds(cells[k])) &&
      (forall a, b :: 0 <= a < b < |cells| ==> cells[a] != cells[b])
    }

    /**
     * The shuffled list of created organisms is still a list of distinct, well-formed organisms
     * with the options' `Pm` and `Pd`, and its fields are the shuffled
     * fields they were created with.
     */
    lemma ShuffleKeepsCreation(created: seq<Organism>, setup: Setup)
      requires Covers(setup, |created|) && AsCreated(created, setup)
      ensures var shuffled := Shuffled(created, setup.order);
        Distinct(shuffled) && Tuned(shuffled, Pm, Pd) &&
        (forall k :: 0 <= k < |shuffled| ==> shuffled[k].WellFormed()) &&
        Snaps(shuffled) == Shuffled(CreationFields(setup, |created|), setup.order)
    {
      ShuffledDistinct(created, setup.order);
      SnapsShuffled(created, setup.order);
    }

    /**
     * The steps after the shuffle: the stationary loop, the placement loop,
     * and the population taking the shuffled list.
     */
    method Arrange(pop: seq<Organism>, count: nat, cells: seq<Cell>)
      requires Valid() && population == [] && Distinct(pop) && count <= |pop|
      requires |cells| == |pop| && Spread(cells)
      requires forall k :: 0 <= k < |pop| ==> pop[k].WellFormed()
      modifies this`population, matrix, pop`mobile, pop`position
      ensures Valid() && population == pop
      ensures Snaps(population) == Placing(Immobile(old(Snaps(pop)), count), cells, |pop|)
    {
      Immobilize(pop, count);
      assert forall k :: 0 <= k < |pop| ==> pop[k].Snapshot() == Snaps(pop)[k];
      PlaceAll(pop, cells);
      population := pop;
    }

    /**
     * The creation loops: `sickCount` organisms made sick, each one counted
     * in `totalInfected`, then `M - sickCount` healthy ones.
     */
    method CreateOrganisms(setup: Setup) returns (created: seq<Organism>)
      requires 0 <= M && Covers(setup, M)
      modifies this`totalInfected
      ensures |created| == M && AsCreated(created, setup)
      ensures totalInfected == old(totalInfected) + setup.sickCount
      ensures forall i :: 0 <= i < M ==> fresh(created[i])
    {
      created := [];
      var i := 0;
      while i < setup.sickCount
        invariant 0 <= i <= setup.sickCount && |created| == i && AsCreated(created, setup)
        invariant totalInfected == old(totalInfected) + i
        invariant forall k :: 0 <= k < i ==> fresh(created[k])
      {
        var o := NewSick(setup.durations[i], setup.dirChoices[i]);
        AsCreatedGrows(created, o, setup);
        created := created + [o];
        totalInfected := totalInfected + 1;
        i := i + 1;
      }
      while i < M
        invariant setup.sickCount <= i <= M && |created| == i && AsCreated(created, setup)
        invariant totalInfected == old(totalInfected) + setup.sickCount
        invariant forall k :: 0 <= k < i ==> fresh(created[k])
      {
        var o := new Organism(Pm, Pd, [setup.dirChoices[i]]);
        AsCreatedGrows(created, o, setup);
        created := created + [o];
        i := i + 1;
      }
    }

    /** A new organism made sick for `duration` ticks, facing the direction `choice` draws. */
    method NewSick(duration: nat, choice: nat) returns (o: Organism)
      requires choice < |Directions|
      ensures fresh(o) && o.Pm == Pm && o.Pd == Pd && o.Snapshot() == Newborn(true, duration, choice)
    {
      o := new Organism(Pm, Pd, [choice]);
      o.MakeSick(duration);
    }

    /**
     * `created` are distinct organisms with the options' `Pm` and `Pd`,
     * holding the fields the creation loops give the first `|created|`
     * organisms.
     */
    ghost predicate AsCreated(created: seq<Organism>, setup: Setup)
      reads created
    {
      setup.sickCount <= |setup.durations| && |created| <= |setup.dirChoices| &&
      DirectionDraws(setup.dirChoices) &&
      Distinct(created) && Snaps(created) == CreationFields(setup, |created|) &&
      Tuned(created, Pm, Pd) && (forall k :: 0 <= k < |created| ==> created[k].WellFormed())
    }

    /** One more organism, with the fields its creation gives it, keeps the list as created. */
    lemma AsCreatedGrows(created: seq<Organism>, o: Organism, setup: Setup)
      requires AsCreated(created, setup) && o !in created && |created| < |setup.dirChoices|
      requires var i := |created|;
        o.Pm == Pm && o.Pd == Pd &&
        o.Snapshot() ==
          Newborn(i < setup.sickCount, if i < setup.sickCount then setup.durations[i] else 0, setup.dirChoices[i])
      ensures AsCreated(created + [o], setup)
    {
      var grown := created + [o];
      assert Snaps(grown) == Snaps(created) + [o.Snapshot()];
      assert CreationFields(setup, |grown|) == CreationFields(setup, |created|) + [o.Snapshot()];
    }

    /** The stationary loop: the first `count` organisms of `pop` become immobile. */
    method Immobilize(pop: seq<Organism>, count: nat)
      requires count <= |pop| && Distinct(pop)
      modifies pop`mobile
      ensures Snaps(pop) == Immobile(old(Snaps(pop)), count)
    {
      var i := 0;
      while i < count
        invariant 0 <= i <= count
        invariant Snaps(pop) == Immobile(old(Snaps(pop)), i)
      {
        pop[i].SetMobility(false);
        i := i + 1;
      }
    }

    /**
     * The placement loop on an empty grid: the organism at index `k` takes
     * position `cells[k]` and is recorded in that cell.
     */
    method PlaceAll(pop: seq<Organism>, cells: seq<Cell>)
      requires Shaped() && Empty() && Distinct(pop) && |cells| == |pop| && Spread(cells)
      requires forall k :: 0 <= k < |pop| ==> pop[k].WellFormed()
      modifies matrix, pop`position
      ensures Snaps(pop) == Placing(old(Snaps(pop)), cells, |pop|)
      ensures forall k :: 0 <= k < |pop| ==> Placed(pop[k])
      ensures forall r, c :: 0 <= r < Side() && 0 <= c < Side() && matrix[r, c] != null ==>
        matrix[r, c] in pop && matrix[r, c].position == Some(Cell(r, c))
    {
      ghost var entry := Snaps(pop);
      var j := 0;
      while j < |pop|
        invariant PlacedUpTo(pop, cells, j, entry)
      {
        PlaceOne(pop[j], pop, cells, j, entry);
        j := j + 1;
      }
      assert pop[..j] == pop;
    }

    /**
     * The placement loop after `j` turns, from the fields `entry` the
     * organisms had when it started: the first `j` organisms sit on their
     * cells, the cells of the others are still free, and every occupied
     * cell holds one of the first `j` organisms, whose position it is.
     */
    ghost predicate PlacedUpTo(pop: seq<Organism>, cells: seq<Cell>, j: nat, entry: seq<Snap>)
      reads matrix, pop
    {
      Shaped() && Distinct(pop) && |cells| == |pop| == |entry| && Spread(cells) && j <= |pop| &&
      (forall k :: 0 <= k < |entry| ==> WellFormedSnap(entry[k])) &&
      Snaps(pop) == Placing(entry, cells, j) &&
      (forall k :: 0 <= k < j ==> Placed(pop[k])) &&
      (forall k :: j <= k < |pop| ==> matrix[cells[k].row, cells[k].col] == null) &&
      (forall r, c :: 0 <= r < Side() && 0 <= c < Side() && matrix[r, c] != null ==>
         matrix[r, c] in pop[..j] && matrix[r, c].position == Some(Cell(r, c)))
    }

    /** Turn `j` of the placement loop. */
    method PlaceOne(o: Organism, pop: seq<Organism>, cells: seq<Cell>, j: nat, ghost entry: seq<Snap>)
      requires PlacedUpTo(pop, cells, j, entry) && j < |pop| && o == pop[j]
      modifies matrix, o`position
      ensures PlacedUpTo(pop, cells, j + 1, entry)
    {
      var cell := cells[j];
      assert o !in pop[..j];
      assert o.Snapshot() == entry[j];
      o.SetPosition(cell.row, cell.col);
      matrix[cell.row, cell.col] := o;
      assert pop[..j + 1] == pop[..j] + [pop[j]];
    }

    /**
     * Classifies a target cell: out of bounds gives (true, null), an
     * occupied cell gives (true, occupant), a free cell gives (false, null).
     */
    method CollisionCheck(row: int, col: int) returns (collided: bool, target: Organism?)
      requires Shaped()
      ensures !InBounds(Cell(row, col)) ==> collided && target == null
      ensures InBounds(Cell(row, col)) ==> target == matrix[row, col] && (collided <==> target != null)
    {
      if row < 0 || row > N - 1 {
        return true, null;
      }
      if col < 0 || col > N - 1 {
        return true, null;
      }
      target := matrix[row, col];
      if target != null {
        return true, target;
      }
      return false, null;
    }

    /**
     * Infection passes from the unhealthy party to the healthy one: the
     * healthy one is marked as contacted and the infection counter goes up
     * by one. Otherwise nothing changes.
     */
    method Transmission(a: Organism, b: Organism) returns (fired: bool)
      modifies this`totalInfected, a`justInfected, b`justInfected
      ensures fired <==> Transmits(a.Snapshot(), b.Snapshot())
      ensures (a.Snapshot(), b.Snapshot(), fired) == Contact(old(a.Snapshot()), old(b.Snapshot()))
      ensures fired ==> totalInfected == old(totalInfected) + 1
      ensures fired && !a.healthy ==> b.justInfected && a.justInfected == old(a.justInfected)
      ensures fired && !b.healthy ==> a.justInfected && b.justInfected == old(b.justInfected)
      ensures !fired ==> totalInfected == old(totalInfected) &&
                         a.justInfected == old(a.justInfected) && b.justInfected == old(b.justInfected)
    {
      if !a.healthy && b.healthy {
        a.Infect(b);
        totalInfected := totalInfected + 1;
        return true;
      } else if !b.healthy && a.healthy {
        b.Infect(a);
        totalInfected := totalInfected + 1;
        return true;
      }
      return false;
    }

    /** The first index of `o` in `pop`, as the list's `remove` finds it. */
    static function IndexOf(pop: seq<Organism>, o: Organism): (i: nat)
      requires o in pop
      ensures i < |pop| && pop[i] == o
      ensures forall j :: 0 <= j < i ==> pop[j] != o
    {
      if pop[0] == o then 0 else 1 + IndexOf(pop[1..], o)
    }

    /** Removes `o` from the grid and from the population, and counts one death. */
    method Kill(o: Organism)
      requires Valid() && o in population
      modifies this`population, this`totalDeaths, matrix
      ensures Valid()
      ensures population == old(population)[..IndexOf(old(population), o)] +
                            old(population)[IndexOf(old(population), o) + 1..]
      ensures o !in population
      ensures totalDeaths == old(totalDeaths) + 1
      ensures o.position.Some? && matrix[o.position.value.row, o.position.value.col] == null
      ensures forall r, c :: 0 <= r < Side() && 0 <= c < Side() && Some(Cell(r, c)) != o.position ==>
        matrix[r, c] == old(matrix[r, c])
    {
      var i := IndexOf(population, o);
      assert Placed(population[i]);
      var cell := o.GetPosition().value;
      matrix[cell.row, cell.col] := null;
      population := population[..i] + population[i + 1..];
      totalDeaths := totalDeaths + 1;
      RemovalKeepsValid(o, i);
    }

    /**
     * Clearing the cell of the organism at index `i` and dropping it from
     * the list keeps the occupancy invariant.
     */
    twostate lemma RemovalKeepsValid(new o: Organism, new i: nat)
      requires old(Valid()) && i < old(|population|) && old(population[i]) == o
      requires population == old(population)[..i] + old(population)[i + 1..]
      requires forall p :: p in old(population) ==> p.position == old(p.position) && p.WellFormed()
      requires o.position.Some? && InBounds(o.position.value)
      requires matrix[o.position.value.row, o.position.value.col] == null
      requires forall r, c :: 0 <= r < Side() && 0 <= c < Side() && Some(Cell(r, c)) != o.position ==>
        matrix[r, c] == old(matrix[r, c])
      ensures Valid()
    {
      assert forall j :: 0 <= j < |population| ==> population[j] == old(population)[if j < i then j else j + 1];
    }

    /**
     * The health-resolution pass of one tick: the tick counter goes up by
     * one and `Pass` says what happens to the population (pending contacts
     * become infections, infections count down and end in death or
     * immunity, and the organism after a dead one is passed over). Slot `i`
     * of the loop uses `durations[i]` and `deathDraws[i]`.
     */
    method Update(durations: seq<nat>, deathDraws: seq<real>)
      requires Valid()
      requires |population| <= |durations| && |population| <= |deathDraws|
      requires forall k :: 0 <= k < |deathDraws| ==> 0.0 <= deathDraws[k] < 1.0
      modifies this`T, this`population, this`totalDeaths, matrix, population
      ensures Valid()
      ensures T == old(T) + 1
      ensures totalInfected == old(totalInfected)
      ensures maxInfectionRate == old(maxInfectionRate) && maxInfectionTime == old(maxInfectionTime)
      ensures Pairs(population) == Pass(old(Pairs(population)), 0, durations, deathDraws)
      ensures |population| <= old(|population|)
      ensures forall o :: o in population ==> o in old(population)
      ensures totalDeaths == old(totalDeaths) + 2 * (old(|population|) - |population|)
      ensures old(Conserves()) ==> Conserves()
    {
      T := T + 1;
      UpdatePass(durations, deathDraws);
    }

    /** The loop of the health-resolution pass, over the list as it shrinks. */
    method UpdatePass(durations: seq<nat>, deathDraws: seq<real>)
      requires Valid()
      requires |population| <= |durations| && |population| <= |deathDraws|
      requires forall k :: 0 <= k < |deathDraws| ==> 0.0 <= deathDraws[k] < 1.0
      modifies this`population, this`totalDeaths, matrix, population
      ensures Valid()
      ensures Pairs(population) == Pass(old(Pairs(population)), 0, durations, deathDraws)
      ensures |population| <= old(|population|)
      ensures forall o :: o in population ==> o in old(population)
      ensures totalDeaths == old(totalDeaths) + 2 * (old(|population|) - |population|)
    {
      ghost var start := Pairs(population);
      var i := 0;
      while i < |population|
        invariant Valid()
        invariant |population| <= |start|
        invariant forall o :: o in population ==> o in old(population)
        invariant Pass(Pairs(population), i, durations, deathDraws) == Pass(start, 0, durations, deathDraws)
        invariant totalDeaths == old(totalDeaths) + 2 * (|start| - |population|)
        decreases |population| - i
      {
        VisitSlot(i, durations, deathDraws);
        i := i + 1;
      }
      assert Pass(Pairs(population), i, durations, deathDraws) == Pairs(population);
    }

    /** One iteration of the update loop: slot `i` of the pass, stated on the pairs. */
    method VisitSlot(i: nat, durations: seq<nat>, deathDraws: seq<real>)
      requires Valid() && i < |population|
      requires |population| <= |durations| && |population| <= |deathDraws|
      requires forall k :: 0 <= k < |deathDraws| ==> 0.0 <= deathDraws[k] < 1.0
      modifies this`population, this`totalDeaths, matrix, population[i]
      ensures Valid()
      ensures forall o :: o in population ==> o in old(population)
      ensures Pairs(population) == PassStep(old(Pairs(population)), i, durations[i], deathDraws[i])
      ensures Pass(Pairs(population), i + 1, durations, deathDraws) ==
              Pass(old(Pairs(population)), i, durations, deathDraws)
      ensures totalDeaths == old(totalDeaths) + 2 * (old(|population|) - |population|)
    {
      ghost var pre := population;
      ghost var before := Pairs(population);
      var dies := ResolveAt(i, durations[i], deathDraws[i]);
      assert OthersAsBefore(pre, i, before);
      if dies {
        PairsAfterRemoval(pre, i, before);
      } else {
        PairsAfterOneChange(pre, i, before);
      }
      PassUnroll(before, i, durations, deathDraws, Pairs(population));
    }

    /**
     * One iteration of the update loop, on the organism at list index `i`:
     * it follows `Resolve`, and a dying organism is removed by `Kill`.
     */
    method ResolveAt(i: nat, duration: nat, deathDraw: real) returns (dies: bool)
      requires Valid() && i < |population|
      requires 0.0 <= deathDraw < 1.0
      modifies this`population, this`totalDeaths, matrix, population[i]
      ensures Valid()
      ensures var r := Resolve(old(population[i]).Pd, old(population[i].Snapshot()), duration, deathDraw);
        dies == r.1 && (!dies ==> old(population[i]).Snapshot() == r.0)
      ensures dies ==> population == old(population)[..i] + old(population)[i + 1..]
      ensures !dies ==> population == old(population)
      ensures totalDeaths == old(totalDeaths) + (if dies then 2 else 0)
    {
      var o := population[i];
      dies := false;
      if o.justInfected && !o.immune {
        BeginInfection(o, duration);
      } else if !o.healthy {
        dies := CountDown(i, deathDraw);
      }
    }

    /** A pending contact on a non-immune organism becomes an infection of `duration` ticks. */
    method BeginInfection(o: Organism, duration: nat)
      requires Valid() && o in population && o.justInfected && !o.immune
      modifies o`healthy, o`remainingTime, o`justInfected
      ensures Valid()
      ensures o.Snapshot() == old(o.Snapshot()).(healthy := false, remainingTime := duration, justInfected := false)
    {
      o.MakeSick(duration);
      o.justInfected := false;
      ValidKept();
    }

    /**
     * An infected organism at list index `i` loses one tick; at zero or
     * below it dies (and is removed) or recovers with immunity.
     */
    method CountDown(i: nat, deathDraw: real) returns (dies: bool)
      requires Valid() && i < |population| && !population[i].healthy
      requires 0.0 <= deathDraw < 1.0
      modifies this`population, this`totalDeaths, matrix, population[i]
      ensures Valid()
      ensures var s := old(population[i].Snapshot());
        var t := s.remainingTime - 1;
        (dies <==> t <= 0 && deathDraw < old(population[i]).Pd) &&
        (dies ==> population == old(population)[..i] + old(population)[i + 1..]) &&
        (!dies ==> population == old(population) &&
                   old(population[i]).Snapshot() ==
                     if t <= 0 then s.(remainingTime := t, healthy := true, immune := true)
                     else s.(remainingTime := t))
      ensures totalDeaths == old(totalDeaths) + (if dies then 2 else 0)
    {
      var o := population[i];
      Decrement(o);
      dies := false;
      if o.remainingTime <= 0 {
        dies := Expire(i, deathDraw);
      }
    }

    /** One tick of an infection passes. */
    method Decrement(o: Organism)
      requires Valid() && o in population
      modifies o`remainingTime
      ensures Valid()
      ensures o.Snapshot() == old(o.Snapshot()).(remainingTime := old(o.remainingTime) - 1)
    {
      o.remainingTime := o.remainingTime - 1;
      ValidKept();
    }

    /**
     * An infection at its end: the organism at list index `i` dies with
     * probability `Pd` (and is removed), or recovers with immunity.
     */
    method Expire(i: nat, deathDraw: real) returns (dies: bool)
      requires Valid() && i < |population| && !population[i].healthy
      requires 0.0 <= deathDraw < 1.0
      modifies this`population, this`totalDeaths, matrix, population[i]
      ensures Valid()
      ensures dies <==> deathDraw < old(population[i]).Pd
      ensures dies ==> population == old(population)[..i] + old(population)[i + 1..]
      ensures !dies ==> population == old(population)
      ensures !dies ==>
        old(population[i]).Snapshot() == old(population[i].Snapshot()).(healthy := true, immune := true)
      ensures totalDeaths == old(totalDeaths) + (if dies then 2 else 0)
    {
      var o := population[i];
      dies := o.ShouldDie(deathDraw);
      if dies {
        assert IndexOf(population, o) == i;
        Kill(o);
        totalDeaths := totalDeaths + 1;
      } else {
        o.Recover();
        ValidKept();
      }
    }

    /**
     * The occupancy invariant survives changes to organisms' fields that
     * keep every position and well-formed flags.
     */
    twostate lemma ValidKept()
      requires old(Valid())
      requires population == old(population)
      requires forall k :: 0 <= k < |population| ==>
        population[k].position == old(population[k].position) && population[k].WellFormed()
      requires forall r, c :: 0 <= r < Side() && 0 <= c < Side() ==> matrix[r, c] == old(matrix[r, c])
      ensures Valid()
    {
    }

    /**
     * Under the occupancy invariant, every organism of the population has a
     * position and a direction, sits inside the grid, and no two organisms
     * share a cell.
     */
    lemma ValidExclusive()
      requires Valid()
      ensures Located(Pairs(population)) && Exclusive(Pairs(population), N)
    {
      var ps := Pairs(population);
      forall a, b | 0 <= a < b < |ps|
        ensures ps[a].1.position != ps[b].1.position
      {
        assert Placed(population[a]) && Placed(population[b]);
      }
    }

    /**
     * Under the occupancy invariant, the grid cell `next` holds exactly the
     * organism whose position names it: it is empty when no organism's
     * position is `next`.
     */
    lemma OccupantOnGrid(next: Cell)
      requires Valid() && InBounds(next)
      ensures var occupant := Occupant(Pairs(population), next);
        (occupant.None? <==> matrix[next.row, next.col] == null) &&
        (occupant.Some? ==> population[occupant.value] == matrix[next.row, next.col])
    {
      var occupant := Occupant(Pairs(population), next);
      if occupant.Some? {
        assert Placed(population[occupant.value]);
      }
    }

    /**
     * One movement attempt of the organism `o` at list index `j`, with
     * `draws` the direction draws its resampling may use. The cell ahead is
     * classified by `CollisionCheck`: a free cell is stepped into; a wall or
     * an occupant stops the organism, which takes a new direction, and an
     * occupant is first offered a transmission. The outcome is `Attempt`.
     */
    method MoveOrganism(ghost j: nat, o: Organism, draws: seq<nat>) returns (infected: bool)
      requires Valid() && j < |population| && population[j] == o && Resamplable(draws)
      requires Located(Pairs(population))
      modifies this`totalInfected, matrix, o`position, o`direction, population`justInfected
      ensures Valid()
      ensures var r := Attempt(old(Pairs(population)), j, N, draws);
        Pairs(population) == r.0 && infected == r.1
      ensures totalInfected == old(totalInfected) + (if infected then 1 else 0)
    {
      assert Placed(o);
      ghost var before := Pairs(population);
      var next := o.NextPosition();
      var collided, target := CollisionCheck(next.row, next.col);
      if InBounds(next) {
        OccupantOnGrid(next);
      }
      if !collided {
        StepTo(j, o, next);
        infected := false;
      } else {
        ghost var m := if target != null then Occupant(before, next).value else 0;
        infected := Bounce(j, o, target, m, draws);
      }
    }

    /** The organism `o` at list index `j` steps into the free in-bounds cell `next`. */
    method StepTo(ghost j: nat, o: Organism, next: Cell)
      requires Valid() && j < |population| && population[j] == o
      requires InBounds(next) && matrix[next.row, next.col] == null
      modifies matrix, o`position
      ensures Valid()
      ensures o.position == Some(next) && matrix[next.row, next.col] == o
      ensures matrix[old(o.position).value.row, old(o.position).value.col] == null
      ensures Pairs(population) == old(Pairs(population))[j := (o, old(o.Snapshot()).(position := Some(next)))]
    {
      assert Placed(o);
      ghost var before := Pairs(population);
      var from := o.GetPosition().value;
      matrix[from.row, from.col] := null;
      o.SetPosition(next.row, next.col);
      matrix[next.row, next.col] := o;
      MoveKeepsValid(o, from, next);
      PairsAfterOneChange(population, j, before);
    }

    /**
     * The organism `o` at list index `j` is stopped by a wall
     * (`target == null`) or by the occupant `target` at list index `m`: it
     * is offered a transmission with the occupant, then takes a new
     * direction. Only the healthy party of a transmission is marked as
     * contacted.
     */
    method Bounce(ghost j: nat, o: Organism, target: Organism?, ghost m: nat, draws: seq<nat>) returns (infected: bool)
      requires Valid() && j < |population| && population[j] == o && Resamplable(draws)
      requires target != null ==> m < |population| && population[m] == target && target != o
      modifies this`totalInfected, o`direction, population`justInfected
      ensures Valid()
      ensures o.direction != old(o.direction)
      ensures infected <==> target != null && Transmits(old(o.Snapshot()), old(target.Snapshot()))
      ensures totalInfected == old(totalInfected) + (if infected then 1 else 0)
      ensures infected ==>
        target != null && (!old(o.healthy) ==> target.justInfected) && (!old(target.healthy) ==> o.justInfected)
      ensures forall p :: p in population && p != o && p != target ==> p.justInfected == old(p.justInfected)
      ensures target == null ==>
        Pairs(population) == old(Pairs(population))[j := (o, Turned(old(o.Snapshot()), draws))]
      ensures target != null ==>
        var c := Contact(old(o.Snapshot()), old(target.Snapshot()));
        Pairs(population) == old(Pairs(population))[m := (target, c.1)][j := (o, Turned(c.0, draws))]
    {
      ghost var before := Pairs(population);
      infected := false;
      if target != null {
        infected := Transmission(o, target);
      }
      ghost var contacted := o.Snapshot();
      ResamplableHasNew(draws, o.direction);
      var _ := o.ChooseDirection(draws);
      assert o.Snapshot() == Turned(contacted, draws);
      ValidKept();
      if target == null {
        PairsAfterOneChange(population, j, before);
      } else {
        PairsAfterTwoChanges(population, j, m, before);
      }
    }

    /**
     * Stepping organism `o` from cell `from` into the free in-bounds cell
     * `next` keeps the occupancy invariant.
     */
    twostate lemma MoveKeepsValid(new o: Organism, new from: Cell, new next: Cell)
      requires old(Valid()) && population == old(population) && o in population
      requires old(o.position) == Some(from) && InBounds(next) && old(matrix[next.row, next.col]) == null
      requires o.position == Some(next) && o.WellFormed()
      requires matrix[next.row, next.col] == o && matrix[from.row, from.col] == null
      requires forall r, c :: 0 <= r < Side() && 0 <= c < Side() && Cell(r, c) != from && Cell(r, c) != next ==>
        matrix[r, c] == old(matrix[r, c])
      requires forall k :: 0 <= k < |population| && population[k] != o ==>
        population[k].position == old(population[k].position) && population[k].WellFormed()
      ensures Valid()
    {
      assert old(Placed(o));
    }

    /**
     * The movement pass of one tick: each organism in list order, when
     * mobile and its move draw `moveDraws[j]` falls below `Pm`, attempts one
     * move, resampling its direction from `dirDraws[j]` when blocked. The
     * new state is the one `Moves` gives, the infection counter rises by the
     * number of transmissions, and the result says whether any happened.
     */
    method MovementPass(moveDraws: seq<real>, dirDraws: seq<seq<nat>>, ghost entry: seq<(Organism, Snap)>,
                        ghost infectedBefore: int) returns (newInfections: bool)
      requires Valid() && entry == Pairs(population) && infectedBefore == totalInfected
      requires |population| <= |moveDraws| && |population| <= |dirDraws|
      requires forall k :: 0 <= k < |moveDraws| ==> 0.0 <= moveDraws[k] < 1.0
      requires forall k :: 0 <= k < |dirDraws| ==> Resamplable(dirDraws[k])
      modifies this`totalInfected, matrix, population`position, population`direction, population`justInfected
      ensures Valid()
      ensures MovesBetween(entry, N, moveDraws, dirDraws, Pairs(population), infectedBefore, totalInfected)
      ensures HealthAgrees(population, entry)
      ensures newInfections <==> totalInfected > infectedBefore
    {
      ValidExclusive();
      ghost var total := Moves(entry, 0, N, moveDraws, dirDraws);
      newInfections := false;
      var j := 0;
      while j < |population|
        invariant 0 <= j <= |population| && Valid()
        invariant PassUnderway(Pairs(population), j, N, moveDraws, dirDraws, total.0, total.1, infectedBefore, totalInfected)
        invariant totalInfected >= infectedBefore
        invariant newInfections <==> totalInfected > infectedBefore
      {
        var infected := PassTurn(j, moveDraws, dirDraws, total.0, total.1, infectedBefore);
        if infected && !newInfections {
          newInfections := true;
        }
        j := j + 1;
      }
      PassFinished(entry, N, moveDraws, dirDraws, Pairs(population), infectedBefore, totalInfected);
      MovedKeepsHealth(population, entry, N, moveDraws, dirDraws);
    }

    /** Turn `j` of the movement pass, moving the pass one turn on. */
    method PassTurn(j: nat, moveDraws: seq<real>, dirDraws: seq<seq<nat>>, ghost out: seq<(Organism, Snap)>,
                    ghost count: int, ghost before: int) returns (infected: bool)
      requires Valid() && j < |population|
      requires PassUnderway(Pairs(population), j, N, moveDraws, dirDraws, out, count, before, totalInfected)
      requires forall k :: 0 <= k < |moveDraws| ==> 0.0 <= moveDraws[k] < 1.0
      modifies this`totalInfected, matrix, population`position, population`direction, population`justInfected
      ensures Valid()
      ensures PassUnderway(Pairs(population), j + 1, N, moveDraws, dirDraws, out, count, before, totalInfected)
      ensures totalInfected == old(totalInfected) + (if infected then 1 else 0)
    {
      ghost var prev := Pairs(population);
      ghost var counted := totalInfected;
      infected := TakeTurn(j, moveDraws[j], dirDraws[j]);
      TurnAdvances(prev, j, N, moveDraws, dirDraws, out, count, before, counted, Pairs(population), totalInfected);
    }

    /**
     * The movement turn of the organism at list index `j`: when it is
     * mobile and its move draw falls below `Pm`, it attempts one move. The
     * outcome is `Turn`.
     */
    method TakeTurn(j: nat, moveDraw: real, draws: seq<nat>) returns (infected: bool)
      requires Valid() && Located(Pairs(population)) && j < |population|
      requires 0.0 <= moveDraw < 1.0 && Resamplable(draws)
      modifies this`totalInfected, matrix, population`position, population`direction, population`justInfected
      ensures Valid()
      ensures var r := Turn(old(Pairs(population)), j, N, moveDraw, draws);
        Pairs(population) == r.0 && infected == r.1
      ensures totalInfected == old(totalInfected) + (if infected then 1 else 0)
    {
      var o := population[j];
      infected := false;
      if o.mobile {
        var moves := o.ShouldMove(moveDraw);
        if moves {
          infected := MoveOrganism(j, o, draws);
        }
      }
    }

    /**
     * One tick: the health-resolution pass, the statistics update, and the
     * movement pass. When the health pass empties the population, the
     * statistics update divides by zero and the tick ends there.
     */
    method Step(durations: seq<nat>, deathDraws: seq<real>, moveDraws: seq<real>, dirDraws: seq<seq<nat>>)
      returns (outcome: StepOutcome)
      requires Valid()
      requires |population| <= |durations| && |population| <= |deathDraws|
      requires forall k :: 0 <= k < |deathDraws| ==> 0.0 <= deathDraws[k] < 1.0
      requires |population| <= |moveDraws| && |population| <= |dirDraws|
      requires forall k :: 0 <= k < |moveDraws| ==> 0.0 <= moveDraws[k] < 1.0
      requires forall k :: 0 <= k < |dirDraws| ==> Resamplable(dirDraws[k])
      modifies this`T, this`population, this`totalDeaths, this`totalInfected
      modifies this`maxInfectionRate, this`maxInfectionTime, matrix, population
      ensures Valid()
      ensures T == old(T) + 1
      ensures HealthAgrees(population, Pass(old(Pairs(population)), 0, durations, deathDraws))
      ensures totalDeaths == old(totalDeaths) + 2 * (old(|population|) - |population|)
      ensures old(Conserves()) ==> Conserves()
      ensures outcome == DivisionByZero <==> population == []
      ensures outcome == DivisionByZero ==>
        totalInfected == old(totalInfected) &&
        maxInfectionRate == old(maxInfectionRate) && maxInfectionTime == old(maxInfectionTime)
      ensures MovesBetween(Pass(old(Pairs(population)), 0, durations, deathDraws), N, moveDraws, dirDraws,
                           Pairs(population), old(totalInfected), totalInfected)
      ensures outcome.Advanced? ==> (outcome.newInfections <==> totalInfected > old(totalInfected))
      ensures outcome.Advanced? ==>
        var rate := RateOf(Pass(old(Pairs(population)), 0, durations, deathDraws));
        (rate > old(maxInfectionRate) ==> maxInfectionRate == rate && maxInfectionTime == T) &&
        (rate <= old(maxInfectionRate) ==>
           maxInfectionRate == old(maxInfectionRate) && maxInfectionTime == old(maxInfectionTime))
      ensures maxInfectionRate >= old(maxInfectionRate)
    {
      Update(durations, deathDraws);
      outcome := Advance(moveDraws, dirDraws, Pairs(population), totalInfected);
    }

    /**
     * The part of a tick after the health-resolution pass: the statistics
     * update, then, when the population is not empty, the movement pass.
     */
    method Advance(moveDraws: seq<real>, dirDraws: seq<seq<nat>>, ghost entry: seq<(Organism, Snap)>,
                   ghost infectedBefore: int) returns (outcome: StepOutcome)
      requires Valid() && entry == Pairs(population) && infectedBefore == totalInfected
      requires |population| <= |moveDraws| && |population| <= |dirDraws|
      requires forall k :: 0 <= k < |moveDraws| ==> 0.0 <= moveDraws[k] < 1.0
      requires forall k :: 0 <= k < |dirDraws| ==> Resamplable(dirDraws[k])
      modifies this`totalInfected, this`maxInfectionRate, this`maxInfectionTime
      modifies matrix, population`position, population`direction, population`justInfected
      ensures Valid()
      ensures T == old(T) && totalDeaths == old(totalDeaths) && population == old(population)
      ensures HealthAgrees(population, entry)
      ensures outcome == DivisionByZero <==> population == []
      ensures outcome == DivisionByZero ==>
        totalInfected == infectedBefore &&
        maxInfectionRate == old(maxInfectionRate) && maxInfectionTime == old(maxInfectionTime)
      ensures MovesBetween(entry, N, moveDraws, dirDraws, Pairs(population), infectedBefore, totalInfected)
      ensures outcome.Advanced? ==> (outcome.newInfections <==> totalInfected > infectedBefore)
      ensures outcome.Advanced? ==>
        var rate := RateOf(entry);
        (rate > old(maxInfectionRate) ==> maxInfectionRate == rate && maxInfectionTime == T) &&
        (rate <= old(maxInfectionRate) ==>
           maxInfectionRate == old(maxInfectionRate) && maxInfectionTime == old(maxInfectionTime))
      ensures maxInfectionRate >= old(maxInfectionRate)
    {
      var ok := UpdateStats();
      assert Pairs(population) == entry;
      outcome := MoveUnlessEmpty(ok, moveDraws, dirDraws, entry, infectedBefore);
    }

    /**
     * The movement pass, when the statistics update succeeded (`ok`, a
     * non-empty population); otherwise the tick ends with nothing moved.
     */
    method MoveUnlessEmpty(ok: bool, moveDraws: seq<real>, dirDraws: seq<seq<nat>>, ghost entry: seq<(Organism, Snap)>,
                           ghost infectedBefore: int) returns (outcome: StepOutcome)
      requires Valid() && entry == Pairs(population) && infectedBefore == totalInfected
      requires ok <==> |population| > 0
      requires |population| <= |moveDraws| && |population| <= |dirDraws|
      requires forall k :: 0 <= k < |moveDraws| ==> 0.0 <= moveDraws[k] < 1.0
      requires forall k :: 0 <= k < |dirDraws| ==> Resamplable(dirDraws[k])
      modifies this`totalInfected, matrix, population`position, population`direction, population`justInfected
      ensures Valid()
      ensures T == old(T) && totalDeaths == old(totalDeaths) && population == old(population)
      ensures maxInfectionRate == old(maxInfectionRate) && maxInfectionTime == old(maxInfectionTime)
      ensures HealthAgrees(population, entry)
      ensures outcome == DivisionByZero <==> population == []
      ensures outcome == DivisionByZero ==> totalInfected == infectedBefore
      ensures MovesBetween(entry, N, moveDraws, dirDraws, Pairs(population), infectedBefore, totalInfected)
      ensures outcome.Advanced? ==> (outcome.newInfections <==> totalInfected > infectedBefore)
    {
      if ok {
        var newInfections := MovementPass(moveDraws, dirDraws, entry, totalInfected);
        outcome := Advanced(newInfections);
      } else {
        PairsAgree(population);
        outcome := DivisionByZero;
      }
    }

    /** True exactly when no organism of the population is unhealthy. */
    method AllHealthy() returns (b: bool)
      ensures b <==> forall k :: 0 <= k < |population| ==> population[k].healthy
      ensures b <==> Sick(Pairs(population)) == 0
    {
      var i := 0;
      while i < |population|
        invariant 0 <= i <= |population|
        invariant forall k :: 0 <= k < i ==> population[k].healthy
      {
        if !population[i].healthy {
          return false;
        }
        i := i + 1;
      }
      return true;
    }

    /**
     * Records a new peak infection rate and its tick. On an empty population
     * the simulator divides by zero; here that is `ok == false`, with nothing
     * changed.
     */
    method UpdateStats() returns (ok: bool)
      modifies this`maxInfectionRate, this`maxInfectionTime
      ensures ok <==> |population| > 0
      ensures ok ==>
        (RateOf(Pairs(population)) > old(maxInfectionRate) ==>
           maxInfectionRate == RateOf(Pairs(population)) && maxInfectionTime == T) &&
        (RateOf(Pairs(population)) <= old(maxInfectionRate) ==>
           maxInfectionRate == old(maxInfectionRate) && maxInfectionTime == old(maxInfectionTime))
      ensures !ok ==> maxInfectionRate == old(maxInfectionRate) && maxInfectionTime == old(maxInfectionTime)
      ensures maxInfectionRate >= old(maxInfectionRate)
      ensures maxInfectionTime != old(maxInfectionTime) ==> maxInfectionTime == T
      ensures T == old(T) && population == old(population) && totalInfected == old(totalInfected)
      ensures totalDeaths == old(totalDeaths)
    {
      ghost var ps := Pairs(population);
      var numInfected := 0;
      var i := 0;
      while i < |population|
        invariant 0 <= i <= |population|
        invariant numInfected == Sick(ps[..i])
      {
        assert ps[..i + 1][..i] == ps[..i] && ps[..i + 1][i] == ps[i];
        assert ps[i].1.healthy == population[i].healthy;
        if !population[i].healthy {
          numInfected := numInfected + 1;
        }
        i := i + 1;
      }
      assert ps[..i] == ps;
      if |population| == 0 {
        return false;
      }
      var infectionRate := numInfected as real / |population| as real;
      if infectionRate > maxInfectionRate {
        maxInfectionRate := infectionRate;
        maxInfectionTime := T;
      }
      return true;
    }
  }
}
