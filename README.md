# outbreaksim engine in Dafny

This project models the agent/grid engine of the outbreaksim epidemic
simulator: the `Organism` state holder (`outbreaksim/organism.py`) and the
`Simulation` tick engine (`outbreaksim/sim.py`). The model follows the
source's own form:

- An organism is a Dafny `class` whose fields the methods update in place.
- The simulation is a `class` with three kinds of state:
  - the population, a `seq<Organism>` that the methods reassign;
  - the N x N grid, an `array2<Organism?>` that holds the same objects;
  - the counters `T`, `totalInfected`, `totalDeaths`, `maxInfectionRate` and `maxInfectionTime`.

Every call into Python's `random` module becomes an explicit input:

| Random call | Modelled as |
|---|---|
| `random.choice(directions)` | an index into `Directions` |
| `random.random() < P` | a real draw in [0, 1) compared with `P` |
| `round(random.expovariate(1/K))` | a natural number |
| `random.shuffle` | an index permutation `order` (`Shuffles.IsShuffle`) |
| rejection-sampled cell | the free cell it settles on |

Files:

- `wrappers.dfy`: the `Option` type.
- `organism.dfy`: directions, compass steps, the health-flag encoding and the `Organism` class.
- `shuffle.dfy`: shuffles as index permutations, and how they preserve counts.
- `health_pass.dfy`: the health-resolution pass of `update`, stated on values.
  - `Resolve` handles one organism.
  - `Pass` runs over the list with the index advancing even after a removal.
- `movement.dfy`: the movement pass of a tick, stated on values.
  - `Attempt` is one organism's move, bounce and contact; `Turn` adds the mobility and `Pm` test.
  - `Moves` runs the turns in list order, each on the state the earlier turns left.
- `simulation.dfy`: the `Simulation` class and its occupancy invariant `Valid`.
  - `Valid` says every organism sits on the in-bounds cell its position names.
  - It also says every occupied cell holds a population member whose position is that cell.

Properties proved include:

- The occupancy invariant is kept by every operation: initialization, kill, update, move and tick.
- Health moves only along susceptible → infected → immune, or death.
- A contact never takes effect in the tick it is made. It takes effect at the next update that visits the organism, and one that follows a dying organism waits one more tick. An immune organism is never made sick.
- An organism that follows a dead one in the list is passed over in that tick.
- Only infected organisms die.
- The death counter equals twice the number of organisms lost.
- Movement and turning follow the compass letters.
- The movement pass is stated on values (`Movement.Moves`): the turns run in list order, and each sees the positions the earlier turns left. A mover steps exactly when the cell ahead is inside the grid and free; otherwise it stays and turns.
- Only the healthy party of a transmission is marked as contacted, and `totalInfected` rises by exactly the number of transmissions.
- Initialization yields exactly `sickCount` infected organisms, whatever the shuffle.
- The peak infection rate never decreases.

Three behaviours of the code are modelled as written:

- Every death is counted twice: once in `kill` and once more in `update`. The model therefore proves `totalDeaths == 2 * (M - |population|)` (`Conserves`), not "initial population = live + deaths".
- `transmission` tests only the `healthy` flags. An immune organism counts as healthy, so it can be marked as contacted, and each such contact raises `total_infected`. Only `update` keeps it from falling sick, by its `not immune` test. `Movement.Transmits` follows this.
- `update_stats` divides by the population size, which raises an exception once every organism has died. The model gives `Step` the outcome `DivisionByZero` for it, and the tick ends there.

## Model

| member | source | states |
|---|---|---|
| Organisms.HealthEncoding | outbreaksim/organism.py:12-14 | among the flag pairs in which `immune` implies `healthy`, each of the three health states is the decoding of exactly one pair |
| Organisms.Organism.constructor | outbreaksim/organism.py:7-18 | a new organism is healthy, not immune, not contacted, mobile, has remaining time 0 and no position, and faces the first direction drawn |
| Organisms.Organism.MakeSick | outbreaksim/organism.py:20-22 | the organism becomes unhealthy with the drawn nonnegative duration; its frame leaves immunity, position and mobility untouched |
| Organisms.Organism.Recover | outbreaksim/organism.py:24-26 | `healthy` and `immune` both become true and nothing else changes |
| Organisms.Organism.Infect | outbreaksim/organism.py:28-29 | only the target's `justInfected` changes, to true |
| Organisms.Organism.ShouldDie | outbreaksim/organism.py:31-32 | true exactly when the draw is below `Pd`; never for `Pd <= 0`, always for `Pd >= 1` |
| Organisms.Organism.SetPosition | outbreaksim/organism.py:34-39 | `GetPosition` afterwards returns the cell that was set |
| Organisms.Organism.SetMobility | outbreaksim/organism.py:41-42 | mobility becomes the given value and nothing else changes |
| Organisms.Organism.ChooseDirection | outbreaksim/organism.py:44-48 | the accepted draw is the first that differs from the current direction; the new direction is one of the eight and differs from the old one |
| Organisms.ResamplableHasNew | outbreaksim/organism.py:44-48 | when two draws differ, some draw differs from any current direction, so the resampling loop stops |
| Organisms.Organism.NextPosition | outbreaksim/organism.py:50-63 | `N` gives row - 1, `S` row + 1, `E` col + 1 and `W` col - 1; each coordinate moves by at most one, and the result is never the current cell |
| Organisms.Organism.ShouldMove | outbreaksim/organism.py:65-66 | true exactly when the draw is below `Pm`; never for `Pm <= 0`, always for `Pm >= 1` |
| Simulations.Simulation.constructor | outbreaksim/sim.py:6-21 | stores the options, zeroes the counters, leaves the population empty and the fresh N x N grid all empty, and the invariant holds |
| Simulations.Simulation.Valid | outbreaksim/sim.py:45-53 | the occupancy invariant: every organism is well formed and sits on the in-bounds cell its position names, no organism is listed twice, and every occupied cell holds a listed organism whose position is that cell |
| Simulations.Simulation.Conserves | outbreaksim/sim.py:88-112 | the death counter is twice the number of organisms lost, as `kill` and `update` each count every death |
| Simulations.Simulation.InitializePopulation | outbreaksim/sim.py:24-55 | yields exactly `M` fresh organisms, all in the grid under the occupancy invariant, with the fields `Layout` gives; `totalInfected` rises by `sickCount`, exactly `sickCount` organisms are infected, and conservation holds exactly when no death has been counted |
| Simulations.Simulation.CreateOrganisms | outbreaksim/sim.py:29-38 | the creation loops give `M` fresh distinct organisms: the first `sickCount` sick with their drawn durations, the rest healthy, each facing its drawn direction; `totalInfected` rises by `sickCount` |
| Simulations.Simulation.NewSick | outbreaksim/sim.py:32-34 | one fresh organism, sick for the drawn duration, facing the drawn direction |
| Simulations.Simulation.AsCreatedGrows | outbreaksim/sim.py:31-38 | appending a new organism with the fields of the next creation step extends the list the creation loops build |
| Simulations.Simulation.CreateShuffled | outbreaksim/sim.py:29-40 | after creation and the shuffle, the list holds `M` fresh distinct organisms whose fields are the shuffled creation fields; `totalInfected` rises by `sickCount` |
| Simulations.Simulation.ShuffleKeepsCreation | outbreaksim/sim.py:40 | shuffling keeps the organisms distinct and well formed, and permutes their fields the same way |
| Simulations.ShuffledDistinct | outbreaksim/sim.py:40 | a shuffle of distinct organisms holds distinct organisms |
| Simulations.SnapsShuffled | outbreaksim/sim.py:40 | the fields of a shuffled list are the shuffled fields |
| Shuffles.ShuffleInjective | outbreaksim/sim.py:40 | a shuffle never takes the same index twice |
| Shuffles.BelowMultiset | outbreaksim/sim.py:40 | how many entries lie below a bound depends only on the multiset of entries |
| Shuffles.ShuffleKeepsCount | outbreaksim/sim.py:40 | a shuffle of `m` indices holds exactly `bound` indices below `bound` when `bound <= m` |
| Simulations.Simulation.Arrange | outbreaksim/sim.py:42-55 | after the stationary loop, the placement loop and the assignment of the list, the invariant holds; the first `stationaryCount` organisms are immobile and organism `k` sits on `cells[k]` |
| Simulations.Simulation.Immobilize | outbreaksim/sim.py:42-43 | exactly the first `count` organisms become immobile; every other field is kept |
| Simulations.Simulation.PlaceAll | outbreaksim/sim.py:45-53 | on an empty grid, organism `k` takes position `cells[k]` and is recorded there; every occupied cell holds a listed organism whose position it is |
| Simulations.Simulation.PlaceOne | outbreaksim/sim.py:46-53 | one placement turn extends the placed prefix by one organism and keeps the later organisms' cells free |
| Simulations.InitialState | outbreaksim/sim.py:24-55 | organism `k` after initialization is the `order[k]`-th created one (infected exactly when that index is below `sickCount`, otherwise susceptible), mobile exactly when `k >= stationaryCount`, and on `cells[k]` |
| Simulations.Layout | outbreaksim/sim.py:24-55 | the fields of the `m` organisms after initialization, in population order: the created ones, shuffled, the first `stationaryCount` made immobile, each placed on its cell |
| Simulations.CountFollowsOrder | outbreaksim/sim.py:31-40 | when infection follows the creation index, the infected count is the number of shuffled indices below `sickCount` |
| Simulations.InitialCount | outbreaksim/sim.py:25-40 | after initialization exactly `sickCount` organisms are infected, whatever the shuffle |
| Simulations.Simulation.CollisionCheck | outbreaksim/sim.py:60-72 | out of bounds gives `(true, null)`; an occupied in-bounds cell gives `(true, occupant)`; a free one gives `(false, null)` |
| Movement.Transmits | outbreaksim/sim.py:76-84 | on well-formed flags, fires exactly when one party is infected and the other is not (the other may be immune); never between two infected or two non-infected parties |
| Movement.Occupant | outbreaksim/sim.py:67-70 | a result names an organism whose position is the cell; no result means that the position of no organism is the cell |
| Movement.Contact | outbreaksim/sim.py:75-86 | fires exactly when `Transmits` holds; only the contact flags change, and on a firing pair exactly the healthy party is marked |
| Movement.Turned | outbreaksim/organism.py:44-48 | only the direction changes, to one that differs from the old one |
| Movement.Attempt | outbreaksim/sim.py:124-141 | one movement attempt on values; it keeps the list length, and `AttemptOutcome` and `AttemptContacts` state its outcome |
| Movement.Turn | outbreaksim/sim.py:124 | an organism that is immobile, or whose draw is not below `Pm`, changes nothing, else it makes an `Attempt`; it keeps the list length |
| Movement.Moves | outbreaksim/sim.py:123-141 | the turns in list order, each on the state the earlier turns left; it keeps the list length and fires at most one transmission per turn |
| Movement.MovesUnroll | outbreaksim/sim.py:123-141 | the pass from turn `j` is turn `j` followed by the pass from turn `j + 1`, with the transmission of turn `j` added to the count |
| Movement.AheadMoves | outbreaksim/organism.py:50-63 | a step always leaves the current cell |
| Movement.TurnShape | outbreaksim/sim.py:123-141 | a turn keeps every organism at its list index, with a position and a direction |
| Movement.AttemptOutcome | outbreaksim/sim.py:124-141 | the mover steps, keeping its other fields, exactly when the cell ahead is inside the grid and no organism is on it; otherwise it stays and faces a new direction. A transmission fires exactly when the cell ahead is occupied and the pair satisfies `Transmits`. No other organism moves or turns |
| Movement.AttemptContacts | outbreaksim/sim.py:136-141 | health flags, remaining time and mobility never change, and no contact is cleared. A contact flag is only set on a healthy organism, and only when a transmission fired. When one fires, the healthy party of the mover and the occupant ahead is marked |
| Movement.AttemptExclusive | outbreaksim/sim.py:131-135 | an attempt keeps every organism inside the grid, on a cell of its own |
| Movement.TurnMovesOrTurns | outbreaksim/sim.py:124-141 | the organism taking the turn stays as it was, steps one cell ahead, or stays and turns; every other organism keeps its position, direction and mobility |
| Movement.MovesKeepHealth | outbreaksim/sim.py:123-141 | over the pass every organism stays at its index with the same health flags, remaining time and mobility, and no contact is cleared |
| Movement.MovesMoveOrTurn | outbreaksim/sim.py:123-141 | over the pass each organism either stays as it was (not mobile, or its draw not below `Pm`), or steps one cell ahead keeping its direction, or stays and takes a new direction |
| Movement.MovesKeepExclusive | outbreaksim/sim.py:123-141 | the pass keeps every organism inside the grid, no two on one cell |
| Movement.MovesContacts | outbreaksim/sim.py:123-141 | a contact flag the pass newly sets belongs to an organism that was healthy, and then at least one transmission fired |
| Simulations.Simulation.Transmission | outbreaksim/sim.py:75-86 | fires exactly when `Transmits` holds; the healthy party is marked contacted and `totalInfected` rises by exactly one; otherwise nothing changes |
| Simulations.Simulation.IndexOf | outbreaksim/sim.py:91 | the first index holding the organism, as list `remove` finds it |
| Simulations.Simulation.Kill | outbreaksim/sim.py:88-92 | clears the organism's cell and no other, drops its first occurrence from the list, adds one death, and keeps the invariant |
| Simulations.Simulation.RemovalKeepsValid | outbreaksim/sim.py:88-92 | clearing a listed organism's cell and removing it from the list keeps the occupancy invariant |
| Simulations.Simulation.AllHealthy | outbreaksim/sim.py:94-98 | true exactly when the infected count (`Sick`) of the population is zero, that is, when every organism is healthy |
| Simulations.FractionBounds | outbreaksim/sim.py:150 | a count out of a positive total is in [0, 1], at 0 exactly for none and at 1 exactly for all |
| Simulations.Sick | outbreaksim/sim.py:145-148 | the number of infected organisms is at most the population size; it is zero exactly when all are healthy and the full size exactly when none is |
| Simulations.RateOf | outbreaksim/sim.py:150 | the infection rate of a nonempty population lies in [0, 1]; it is 0 exactly when all are healthy and 1 exactly when none is |
| HealthPass.Resolve | outbreaksim/sim.py:104-114 | a pending contact on a non-immune organism makes it sick without a decrement; an immune organism is left as it is; a sick one loses one tick and at zero or below dies on a draw below `Pd` or becomes immune; only infected organisms die; survivors follow the health state machine |
| HealthPass.PassStep | outbreaksim/sim.py:104-114 | the organism at slot `i` follows `Resolve`. When it dies the list is one shorter: the entries before `i` keep their slots and each later one moves down one slot. When it survives the length is kept, its slot holds its resolved fields, and every other slot is unchanged |
| HealthPass.PassUnroll | outbreaksim/sim.py:103-114 | the pass from slot `i` is `PassStep` at slot `i` followed by the pass from slot `i + 1` |
| HealthPass.Pass | outbreaksim/sim.py:103-114 | the `update` loop from slot `i` on over the shrinking list: it only removes organisms, and never one of the first `i` |
| HealthPass.PassKeepsPrefix | outbreaksim/sim.py:103-111 | the pass never alters the entries before the slot it starts at |
| HealthPass.PassSkipsSuccessorOfDead | outbreaksim/sim.py:103-111 | when the organism at slot `i` dies, the one after it moves into slot `i` and ends the tick unchanged |
| HealthPass.PassFollowsStateMachine | outbreaksim/sim.py:103-114 | every organism that survives the pass was in the population and moved only along the health state machine, keeping position, mobility and direction |
| HealthPass.PassFollowsFrom | outbreaksim/sim.py:103-114 | the induction step: entries traced to the start of the pass stay traced to it |
| HealthPass.PassRemovesOnlyInfected | outbreaksim/sim.py:107-114 | every organism that is not infected when the pass starts is still present when it ends |
| Simulations.PairsAfterOneChange | outbreaksim/sim.py:104-114 | changing one organism's fields changes only its entry of the pairs |
| Simulations.PairsAfterRemoval | outbreaksim/sim.py:91 | removing the organism at index `i` removes entry `i` of the pairs |
| Simulations.PairsAfterTwoChanges | outbreaksim/sim.py:136-141 | changing the fields of two organisms changes only their two pairs |
| Simulations.PairsAgree | outbreaksim/sim.py:122-142 | a population agrees on health with its own pairs |
| Simulations.Simulation.Update | outbreaksim/sim.py:101-114 | `T` rises by one. The population and its fields become what `Pass` gives from their values before, and only existing organisms remain. The invariant holds, and each lost organism adds two deaths, so conservation is kept. `totalInfected` and the peak are unchanged |
| Simulations.Simulation.UpdatePass | outbreaksim/sim.py:103-114 | the loop over the shrinking list equals `Pass` from slot 0 and keeps the invariant and the double death count |
| Simulations.Simulation.VisitSlot | outbreaksim/sim.py:103-114 | one loop turn is one `PassStep` on the pairs, so the rest of the pass is unchanged |
| Simulations.Simulation.ResolveAt | outbreaksim/sim.py:104-114 | the organism at index `i` follows `Resolve`; a dying one is removed from the list and counts two deaths |
| Simulations.Simulation.BeginInfection | outbreaksim/sim.py:104-106 | a pending contact becomes an infection of the drawn duration and the contact flag clears; everything else is kept |
| Simulations.Simulation.CountDown | outbreaksim/sim.py:107-114 | the remaining time drops by one; at zero or below the organism dies on a draw below `Pd` or recovers with immunity |
| Simulations.Simulation.Decrement | outbreaksim/sim.py:108 | only the remaining time changes, down by one, and the invariant holds |
| Simulations.Simulation.Expire | outbreaksim/sim.py:109-114 | dies exactly on a draw below `Pd`, removed with two deaths counted; otherwise it becomes healthy and immune in place |
| Simulations.Simulation.ValidKept | outbreaksim/sim.py:104-114 | field changes that keep every position and well-formed flags keep the occupancy invariant |
| Simulations.Simulation.Step | outbreaksim/sim.py:119-142 | `T` rises by one. Health follows `Pass` from the old pairs, and movement then takes the result to the new pairs as `Moves` gives, with `totalInfected` rising by the number of transmissions. When the rate after the health pass beats the old peak, it becomes the peak at tick `T`; otherwise both are kept. On an empty population the tick ends in `DivisionByZero` with no movement and no change to the statistics. Otherwise it reports new infections exactly when `totalInfected` rose. Each organism lost adds two deaths, so conservation is kept, and the invariant holds |
| Simulations.Simulation.Advance | outbreaksim/sim.py:121-142 | the statistics update, then the movement pass on a nonempty population: the pairs end as `Moves` gives from the entry pairs, with `totalInfected` up by the number of transmissions; the peak and its tick follow `RateOf` of the entry pairs; an empty population ends in `DivisionByZero` with nothing changed; `T`, the deaths and the list are unchanged |
| Simulations.Simulation.MovementPass | outbreaksim/sim.py:122-142 | the population ends in the state `Moves` gives from the entry pairs: the turns run in list order, each seeing the positions the earlier ones left. `totalInfected` rises by exactly the number of transmissions, and the result is true exactly when it rose. Health fields are kept, contacts are never cleared, and the invariant holds |
| Simulations.Simulation.PassTurn | outbreaksim/sim.py:123-141 | one loop turn moves the pass one turn on: the rest of the pass still ends where the whole pass does, with the counter up by one exactly on a transmission |
| Simulations.TurnAdvances | outbreaksim/sim.py:123-141 | after turn `j` the pass from `j + 1` reaches the same state and total count as the pass from `j` |
| Simulations.PassFinished | outbreaksim/sim.py:123-142 | after the last turn, the population and the counter are those of the whole pass |
| Simulations.MovedKeepsHealth | outbreaksim/sim.py:123-142 | a population the movement pass produced agrees on health with the pairs it started from |
| Simulations.Simulation.MoveUnlessEmpty | outbreaksim/sim.py:122-142 | the movement pass when the statistics update succeeded, with its outcome as in `MovementPass`; on an empty population `DivisionByZero` with nothing changed; `T`, the deaths, the list and the peak are unchanged |
| Simulations.Simulation.TakeTurn | outbreaksim/sim.py:123-141 | the new pairs and the result are exactly `Turn` on the old pairs: an organism that is immobile, or whose draw is not below `Pm`, changes nothing; `totalInfected` rises by one exactly when a transmission fired; the invariant holds |
| Simulations.Simulation.MoveOrganism | outbreaksim/sim.py:125-141 | the new pairs and the result are exactly `Attempt` on the old pairs, the grid lookup of `CollisionCheck` agreeing with `Occupant`; `totalInfected` rises by one exactly when a transmission fired; the invariant holds |
| Simulations.Simulation.ValidExclusive | outbreaksim/sim.py:45-53 | under the occupancy invariant every organism has a position and a direction, sits inside the grid, and no two share a cell |
| Simulations.Simulation.OccupantOnGrid | outbreaksim/sim.py:67-70 | under the occupancy invariant the grid cell holds exactly the organism whose position names it, and is empty when there is none |
| Simulations.Simulation.StepTo | outbreaksim/sim.py:131-135 | the old cell becomes empty, the new cell holds the organism and its position agrees, and the invariant holds |
| Simulations.Simulation.MoveKeepsValid | outbreaksim/sim.py:131-135 | a step from one cell into a free in-bounds cell keeps the occupancy invariant |
| Simulations.Simulation.Bounce | outbreaksim/sim.py:136-141 | a blocked mover takes a new direction. A transmission fires exactly when there is an occupant and the pair satisfies `Transmits`, and then the healthy party of the pair is the one marked contacted. The contact flag of no other organism changes. The new pairs are the `Contact` fields of the pair, with the mover `Turned` |
| Simulations.Simulation.UpdateStats | outbreaksim/sim.py:144-154 | on a nonempty population, a rate (`RateOf` the pairs) above the old peak becomes the peak at tick `T`; otherwise both are kept. The peak never decreases, and its tick changes only to `T`. An empty population is the division by zero, with nothing changed. `T`, the list, `totalInfected` and the deaths are unchanged |

## Left out

- `Simulation.print` (console rendering) and the Monte Carlo driver `simulator.py` are not part of this model.
- The random distributions are not modelled: their outcomes are inputs, namely real draws in [0, 1), direction indices, natural durations, an index permutation for the shuffle, and the cells placement settles on.
- `round(X * M)` and `round(S * M)` are inputs (`sickCount`, `stationaryCount`), and so is the rounding of the exponential sample. `K` is therefore never read, and a zero `K`, for which the source divides by zero, is not modelled.
- Floating point: `update_stats` divides exactly, on reals, and draws are exact reals.
- `total_infection_rate` is set in `__init__` and never used; it is not modelled.
- The population `None` before initialization is the empty sequence.
- A negative `N` gives a 0 x 0 grid (`Side`), as Python's `range` does.
- Python's `is` comparison in `choose_direction` is modelled as equality of directions, which it coincides with for the interned direction strings.
- Organisms.Organism.ChooseDirection: requires a draw that differs from the current direction (`Resamplable` guarantees one). An unbounded run of repeats, where the source would keep drawing, is not modelled.
- Organisms.Organism.NextPosition: requires a position and a direction. The source would fail on an organism that was never placed; every organism the engine moves has both.
- Simulations.Simulation.InitializePopulation: the rejection-sampling loop is not modelled.
  - It receives the cells placement settles on.
  - It requires these to be distinct and inside the grid, which implies `M <= N * N`.
  - The termination of the loop over random draws, and its endless run when `M > N * N`, are not modelled.
- Simulations.Simulation.InitializePopulation: requires `sickCount <= M` and `stationaryCount <= M`.
  - With `X > 1` the source would create more than `M` organisms.
  - With `S > 1` it would fail on an index error.
- Simulations.Simulation.InitializePopulation: requires an empty population, that is, a single call after construction. A second call in the source would place new organisms on a grid that still holds the old ones.
- Simulations.Simulation.Step: the division by zero in `update_stats`, an exception in the source, is the `DivisionByZero` outcome; the tick ends there, as the exception ends it.
- Simulations.Simulation.InitializePopulation: requires `0 <= M`. The source accepts a negative `M`: every `range` is then empty and the population stays empty. That case is not modelled.
- Simulations.Simulation.InitializePopulation: takes `sickCount` and `stationaryCount` as natural numbers. With `X < 0` the source's `round(X * M)` is negative: its first loop then creates no sick organism, and its second creates `M - round(X * M)` healthy ones, more than `M`. That case is not modelled. A negative `round(S * M)` leaves every organism mobile, as `stationaryCount = 0` does.
- Organisms.Organism.MakeSick: takes a natural duration. With a negative `K` the source's `round(random.expovariate(1/K))` is negative, and the organism would then expire on its first countdown; negative durations are not modelled.
