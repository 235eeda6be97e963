# Beverage Bandits and Chronal Classification, modelled in Dafny

This project models two Advent of Code 2018 solutions written in Ruby.

**day15.rb** is a combat simulator on a walled grid.
- Goblins and elves take turns in reading order (row first, then column).
- In its turn a unit moves one step towards the nearest square next to an enemy, then attacks the adjacent enemy with the fewest hit points.
- `compute_part_one` plays rounds until one side is gone. It answers whether every elf survived, and the outcome: the number of full rounds times the elves' remaining hit points.
- `compute_part_two` binary-searches the least elf attack power (4 to 200) at which no elf dies.

**day16.rb** is a four-register machine with sixteen opcodes.
- Part one counts the samples (registers before, instruction, registers after) that three or more opcodes explain.
- Part two collects each opcode number's candidate names and resolves them by eliminating names already known. It then runs the program from four zero registers and answers register 0.

## Modules

| file | module | what it holds |
|---|---|---|
| ordering.dfy | `Ordering` | lexicographic order on integer keys, least elements, sorting a set by keys |
| grid.dfy | `Wrappers`, `Grid` | `Option`; coordinates, cells, the board, adjacency, reading order |
| combat.dfy | `Combat` | the battle state as a value (`MapState`), the queries of `Map` and the state changes as functions, the consistency invariant |
| pathfinding.dfy | `Pathfinding` | the breadth-first search `next_move_between`, as a method over the Ruby queue, proved against a path-based specification |
| rounds.dfy | `Rounds` | one unit's turn, one round (`loop_units`), a whole battle, part one, as functions of the state |
| simulator.dfy | `Simulator` | the class `Map`, whose methods update the grid and unit table in place, and the methods that play a turn and a round |
| game.dfy | `Game` | the round loop and the binary search of `compute_part_one` / `compute_part_two` |
| device.dfy | `Device` | the sixteen opcode procs, bitwise `&` and `|` on naturals, executing one instruction on an `array` |
| deduction.dfy | `Deduction` | day16 part one, the candidate sets, the elimination loop and the program run |

**Units.** Each unit is identified by the square it starts on. A Ruby unit is an object with identity. Its coordinates, hit points and attack power change in place. Here the unit is a record in a map held by `Map`, keyed by that starting square.

**The invariant.** Every method of `Map` keeps `Combat.Consistent`:
- the grid is walled in;
- the two faction sets hold exactly the units with hit points left;
- each living unit stands on a square that holds it;
- every unit on the grid is a living one standing there.

## Model

| member | source | states |
|---|---|---|
| Grid.SetAt | day15.rb:162-165 | writing one square changes that square and no other, and keeps the board's shape |
| Grid.Neighbours | day15.rb:279-283 | the four offsets of `ADJACENTS` give exactly the four orthogonal neighbours |
| Grid.Adjacents | day15.rb:279-290 | `adjacents` lists exactly the non-wall orthogonal neighbours (on a walled-in board), at most four |
| Grid.EmptyAdjacents | day15.rb:292-296 | `empty_adjacents` lists exactly the empty orthogonal neighbours |
| Grid.AdjacentsAreDistinct | day15.rb:279-296 | neither list repeats a square |
| Grid.NonWallIsInterior | day15.rb:285-289 | on a walled-in board a non-wall square is never on the edge, so the bounds test on the origin never matters |
| Grid.Compare | day15.rb:84-86 | `<=>` on `coordinate.reverse` is negative, zero or positive exactly when the first unit is before, on, or after the second in reading order |
| Grid.ReadingOrderIsKeyOrder | day15.rb:84-86 | reading order is the lexicographic order of `[y, x]`, and equal keys mean equal squares |
| Grid.ReadingOrderIsStrictTotal | day15.rb:112-114 | reading order is irreflexive, asymmetric, transitive and total, so `sort` has one answer |
| Grid.ReadingFirstExists | day15.rb:380-384 | every non-empty set of squares has a first square in reading order |
| Ordering.LexLessIsStrictTotal | day15.rb:310-312 | lexicographic comparison of equal-length keys is a strict total order |
| Ordering.OrderedByIndex | day15.rb:188-192 | a list sorted by keys has strictly increasing keys at every pair of positions |
| Ordering.LeastExists | day15.rb:264 | a non-empty set with distinct keys has an element of least key |
| Ordering.SortBy | day15.rb:188-192 | sorting a set by distinct keys gives a list of exactly its members, each once, in increasing key order |
| Combat.LivingIsPlaced | day15.rb:118-140 | in a consistent state a living unit stands on an interior square that holds it and has hit points left |
| Combat.PositionsDistinct | day15.rb:118-140 | two living units never share a square |
| Combat.EnemyKeyOrder | day15.rb:310-312 | the `enemies` sort key orders by hit points, then by reading order of the square |
| Combat.AdjacentEnemies | day15.rb:298-309 | the units standing on the neighbours of a unit that belong to the other side are exactly the living opponents adjacent to it |
| Combat.Enemies | day15.rb:298-313 | `enemies` lists exactly the adjacent living opponents, sorted by `[hp, coordinate.reverse]` |
| Combat.TargetIsWeakest | day15.rb:24-26 | the attacked target `enemies(unit).first` has the fewest hit points of the adjacent enemies, ties going to the first in reading order |
| Combat.ShouldAttackIffEnemyAdjacent | day15.rb:209-211 | `should_attack?` holds exactly when some living opponent is adjacent |
| Combat.InRange | day15.rb:267-277 | `in_range` is exactly the set of empty squares next to some living opponent |
| Combat.ShouldMoveIff | day15.rb:236-249 | `should_move?` holds exactly when no enemy is adjacent and `in_range` is not empty |
| Combat.Moved | day15.rb:202-207 | `move` empties the old square, puts the unit on the target, updates its position; no other square, unit or set changes |
| Combat.MovedConsistent | day15.rb:202-207 | moving a living unit to an empty square keeps the invariant |
| Combat.Removed | day15.rb:213-223 | `remove_dead` empties the unit's square and deletes it from its own faction set only |
| Combat.Attacked | day15.rb:225-234 | `attack` lowers the target's hit points by exactly the attacker's power. At 0 or below, the target's square empties and it leaves its set. Otherwise the grid and both sets are unchanged |
| Combat.AttackedConsistent | day15.rb:225-234 | attacking a living unit keeps the invariant |
| Combat.WoundedConsistent | day15.rb:226-230 | an attack that leaves the target alive keeps the invariant |
| Combat.KilledConsistent | day15.rb:230-233 | an attack that kills keeps the invariant once the dead unit is removed |
| Combat.WithElfAp | day15.rb:142-144 | `set_elf_ap` sets every elf's attack power and changes nothing else |
| Combat.WithElfApConsistent | day15.rb:142-144 | setting the elves' power keeps the invariant |
| Combat.Targets | day15.rb:257-263 | the answers gathered by `next_move` are exactly the search results of the in-range squares that can be reached |
| Combat.MoveKeyOrder | day15.rb:264 | the `min_by` key `[dist, target.reverse]` orders by distance, then by reading order of the first step |
| Combat.LeastMoveIsUnique | day15.rb:264 | the `min_by` answer is unique |
| Combat.LeastMoveExists | day15.rb:264 | a non-empty set of answers has a `min_by` answer |
| Combat.NextMoveSpec | day15.rb:251-265 | `next_move` is nil exactly when no in-range square is reachable, and otherwise the first step of the least answer by distance, then step in reading order |
| Combat.NoMoveIffUnreachable | day15.rb:257-264 | `next_move` is nil exactly when every in-range square has no path from the unit |
| Combat.NextMoveIsAStep | day15.rb:251-265 | a move is always to an empty square next to the unit |
| Pathfinding.BestFirstStepIsUnique | day15.rb:380-384 | the best first step and its distance are unique |
| Pathfinding.BestFirstStep | day15.rb:354-385 | nil exactly when no empty neighbour of `from` leads to `to` through empty squares; otherwise the reading-first neighbour on a shortest path, with the path's length |
| Pathfinding.ReachIgnoresTargetExpansion | day15.rb:365-377 | never expanding `to` itself does not change which distances reach `to` |
| Pathfinding.FirstInReadingOrder | day15.rb:380-384 | `sort_by { neighbour.reverse }.first` picks an answer whose step no other answer's precedes |
| Pathfinding.PushUnvisited | day15.rb:372-376 | the queue grows by the neighbours not yet visited from the same first step, one move further, in order |
| Pathfinding.VisitTarget | day15.rb:367-370 | reaching `to` records a new `[first, distance]` pair and sets the minimum distance |
| Pathfinding.StopEarly | day15.rb:365-366 | once the queue head is further than the minimum, every shortest answer has been found |
| Pathfinding.Search | day15.rb:355-378 | the queue loop ends with exactly the first steps that reach `to` soonest, and that distance |
| Pathfinding.ConcludeNoPath | day15.rb:380-384 | the search outputs nothing exactly when there is no path |
| Pathfinding.NextMoveBetween | day15.rb:354-385 | the method returns the best first step and distance, or nil exactly when there is no path |
| Rounds.AttackEvolves | day15.rb:225-234 | an attack keeps the invariant, leaves the attacker and every position as they were |
| Rounds.Strike | day15.rb:24-27 | with an adjacent enemy the unit hits the first of `enemies` for its power; otherwise nothing changes |
| Rounds.MoveEvolves | day15.rb:21 | a move keeps the invariant and moves only the mover |
| Rounds.Turn | day15.rb:14-28 | one unit's turn keeps the invariant, moves at most the unit itself by one step to an empty square, and stops the round only when combat has ended |
| Rounds.DeadUnitsDoNothing | day15.rb:14 | a unit killed earlier in the round is skipped |
| Rounds.AdjacentEnemyPinsUnit | day15.rb:17 | a unit with an adjacent enemy does not move |
| Rounds.RoundFrom | day15.rb:13-29 | the units' turns in order keep the invariant; an early stop means combat has ended |
| Rounds.Order | day15.rb:188-192 | `units` lists every living unit of both sets once, sorted by reading order of its square |
| Rounds.OrderIsReadingOrder | day15.rb:188-192 | any two units of `units` come in reading order of their squares |
| Rounds.Round | day15.rb:12-30 | `loop_units` keeps the invariant, and its early stop means combat has ended |
| Rounds.Battle | day15.rb:37-42 | the battle ends in a consistent state where one side is gone, reached from the start by moves and hits; the count is below the budget, or 0 when combat had ended before any round |
| Rounds.AfterRounds | day15.rb:37-42 | the state after any number of rounds in a row keeps the invariant |
| Rounds.BattleCountsRounds | day15.rb:37-42 | the battle's report matches the rounds played one after the other: with `n` counted it stops in the state `n + 1` rounds on, combat not having ended in any earlier state; with no result combat never ended within the budget |
| Rounds.BattleCountsFullRounds | day15.rb:37-42 | the count is the number of full rounds: with `n` counted, combat had not ended in the states 0 to `n` rounds on, and the final state is the one `n + 1` rounds on, so the round in which combat ended is not counted |
| Rounds.BattleFailsOnlyUnended | day15.rb:37-42 | a battle gives no result only when combat had not ended in any state up to the budget |
| Rounds.SumHpRemove | day15.rb:46 | the hit-point sum splits off one unit |
| Rounds.SumHpOfLivingIsPositive | day15.rb:46 | the elves' hit-point sum is never negative, and is 0 exactly when no elf is left |
| Rounds.PartOne | day15.rb:32-51 | part one has an answer exactly when the battle ends within the round budget |
| Rounds.PartOneFlagMeansNoElfDied | day15.rb:44-49 | the flag is true exactly when the elf set is the same at the end as at the start; then the goblins are gone |
| Rounds.PartOneOutcomeSign | day15.rb:46-47 | the outcome is never negative, and 0 exactly when no elf survives or no full round was played |
| Simulator.CellOf | day15.rb:125-135 | `G` and `E` become a unit on that square, `#` a wall, `.` an empty square, anything else stays as it is |
| Simulator.Squares | day15.rb:122-132 | the squares of the rows that hold a given character |
| Simulator.Initial | day15.rb:118-140 | the starting state: every character read into the grid, one goblin or elf with 200 hit points and power 3 per `G` or `E` |
| Simulator.InitialConsistent | day15.rb:118-140 | a walled-in rectangle of characters gives a consistent starting state |
| Simulator.Map.constructor | day15.rb:118-140 | the nested loop over rows and characters builds exactly the starting state |
| Simulator.SetApOf | day15.rb:143 | sets the power of exactly the listed units |
| Simulator.Map.SetElfAp | day15.rb:142-144 | the state afterwards is the old one with every elf's power set |
| Simulator.BestAnswer | day15.rb:257-264 | the loop over the in-range squares keeps the least answer seen, and ends with the least of all answers, or nil when there are none |
| Simulator.LeastAnswerIsNextMove | day15.rb:257-264 | the least answer's step is `next_move` |
| Simulator.Map.NextMove | day15.rb:251-265 | returns the step `next_move` specifies |
| Simulator.Map.Move | day15.rb:202-207 | the new state is the old one with the unit moved, and the invariant holds |
| Simulator.Map.RemoveDead | day15.rb:213-223 | the new state is the old one with the unit removed |
| Simulator.Map.Attack | day15.rb:225-234 | the new state is the old one attacked, and the invariant holds |
| Simulator.TakeTurn | day15.rb:14-28 | plays one unit's turn in place, ending in the state and stop signal of `Turn` |
| Simulator.StrikeStep | day15.rb:24-27 | attacks in place as `Strike` says |
| Simulator.LoopUnits | day15.rb:12-30 | plays one round in place over a snapshot of `units`, ending in the state of `Round` |
| Game.SumHpOf | day15.rb:46 | `elves.sum(&:hp)` by a loop over the set |
| Game.PlayRound | day15.rb:38-41 | one round of the `while` loop advances the battle by one round and reports whether combat ended |
| Game.PlayBattle | day15.rb:37-42 | the loop ends in the battle's final state with its count of full rounds, or gives up exactly when the battle does not end within the budget |
| Game.ComputePartOne | day15.rb:32-51 | returns part one of the state as it was before, with elf power 4 when no power is given |
| Game.Probe | day15.rb:56 | one trial plays part one on a fresh map with the given elf power |
| Game.FoundAt | day15.rb:53-57 | a power at which the elves survive, with the power below failing or at 4, is the answer with its outcome |
| Game.FoundIsLeast | day15.rb:53-57 | when survival is monotone in the power, the answer is the least power from 4 at which no elf dies |
| Game.ComputePartTwo | day15.rb:53-59 | the binary search returns such an answer, or nothing when power 200 still loses an elf or a trial runs out of rounds |
| Device.OpsListsEveryOpOnce | day16.rb:111-128 | `INSTRUCTIONS` names each of the sixteen opcodes exactly once |
| Device.BitAnd | day16.rb:27-35 | `&` of two naturals is at most either |
| Device.BitOr | day16.rb:37-45 | `\|` of two naturals is at least either and at most their sum |
| Device.BitOfAnd | day16.rb:27-35 | for every `k`, bit `k` of `a & b` (that is, `(x / 2^k) % 2` for `x = a & b`) is set exactly when bit `k` is set in both `a` and `b` |
| Device.BitOfOr | day16.rb:37-45 | for every `k`, bit `k` of `a \| b` is set exactly when bit `k` is set in `a` or in `b` |
| Device.AndPlusOr | day16.rb:27-45 | `a & b` plus `a \| b` is `a + b` |
| Device.AndOrCommute | day16.rb:27-45 | both are commutative |
| Device.AndOrIdempotent | day16.rb:27-45 | `a & a` and `a \| a` are `a` |
| Device.ApplyWritesOnlyOutput | day16.rb:7-109 | every proc writes `regs[output]` and leaves the other three registers alone |
| Device.ValueIsDecoded | day16.rb:7-109 | each proc combines its operands as its name says: the operation, and for each operand `r` a register or `i` a literal |
| Device.ComparisonsWriteABit | day16.rb:57-109 | `gt*` and `eq*` write 1 exactly when the first operand is greater than, or equal to, the second, and 0 otherwise |
| Device.SetIgnoresSecondOperand | day16.rb:47-55 | `setr` and `seti` ignore `i2` |
| Device.LiteralActsAsRegister | day16.rb:12-100 | an `i` opcode whose literal equals a register's content acts as its `r` twin reading that register |
| Device.Execute | day16.rb:7-109 | running a proc in place on the register array leaves exactly what the proc computes |
| Deduction.MatchingIn | day16.rb:131-136 | the selected names are exactly the listed procs that turn `before` into `after` |
| Deduction.CandidatesAreTheMatches | day16.rb:131-136 | a sample's candidates are exactly the procs that match it |
| Deduction.MatchingInIsDistinct | day16.rb:131-136 | no name is selected twice |
| Deduction.CandidatesCountMatchingNames | day16.rb:131-139 | `candidates.length` is the number of different procs that match |
| Deduction.CountLikeThree | day16.rb:130-143 | the count is at most the number of samples |
| Deduction.CountLikeThreeCounts | day16.rb:130-143 | part one counts exactly the samples that three or more procs match |
| Deduction.NameSet | day16.rb:147-154 | `Set.new(candidates)` holds exactly the matching procs |
| Deduction.GroupedOpcodes | day16.rb:157-163 | one group per opcode number that a sample carries, and no other |
| Deduction.GroupedIsUnion | day16.rb:157-163 | a name is a candidate for a number exactly when it matches some sample with that number: union, not intersection |
| Deduction.Only | day16.rb:167-168 | `candidates.first` of a one-name set is its only name |
| Deduction.PassShrinks | day16.rb:166-178 | a pass keeps every group's number and position, only removes names, and leaves one-name groups as they are |
| Deduction.PassRecords | day16.rb:167-169 | a pass forgets no known number and records the number of every one-name group |
| Deduction.PassKeepsSingletons | day16.rb:166-178 | during a pass every known number keeps a one-name group holding exactly its known name |
| Deduction.EliminateNarrows | day16.rb:165-181 | the loop only narrows the groups, and each known name is the only name left in a group of its number |
| Deduction.EliminateStops | day16.rb:165 | the loop stops with every number known, or after exactly 1000 passes |
| Deduction.ResolvedNamesAreWitnessed | day16.rb:145-181 | every resolved number is mapped to a proc that matched some sample carrying that number |
| Deduction.MapPass | day16.rb:166-178 | the `grouped.map` loop is one pass, `known` growing during it |
| Deduction.Resolve | day16.rb:163-181 | the `while` loop ends with the mapping and the pass count of the elimination |
| Deduction.Run | day16.rb:183-187 | a run that finishes leaves four registers |
| Deduction.RunFailsOnlyOnUnrunnable | day16.rb:183-187 | the run fails exactly when some instruction has an unresolved opcode or a register operand out of range, whatever the registers |
| Deduction.RunConcatenation | day16.rb:183-187 | running two programs in turn is running their concatenation |
| Deduction.RunProgram | day16.rb:182-189 | the loop over the program on a four-register array answers register 0 of the run from zeros, or nothing when the run fails |
| Deduction.PartTwoRunsWitnessedProcs | day16.rb:145-190 | when part two answers, every instruction ran as a proc that matched a sample with its opcode number |
| Deduction.ComputePartTwo | day16.rb:145-190 | grouping, elimination and the run together give part two's answer |

## Left out

- Input reading, the test fixtures and the top-level calls (`InputReader`, `prod_input`, `test_input`, `parse_raw`, `parse_instruction_execution`, `parse_registers`, `parse_instruction`) are not part of this model. Part one of day15 takes the grid as a `Map`. Part two takes the rows of characters, standing in for re-reading the input for every trial. Day16 takes samples and a program as values.
- Printing: `puts` and the `to_s` methods.
- `next_move_between_fast` duplicates `next_move_between` and is never reached, because the `fast` flag is never passed. `each_coordinate` and `each_edge` are unused. `max_x` and `max_y` only serve the bounds test.
- Ruby wraps negative indices, and `adjacents` bounds-checks the origin rather than the neighbour. The model instead requires a grid walled in by `#` (`Simulator.WellFormed`, `Grid.Bordered`), under which neither quirk is reached.
- `Float::INFINITY` as "no distance yet" is `Option.None`.
- Ruby `Set` insertion order. Where Ruby iterates a set (`@elves.each`, `in_range` and the order it hands to `min_by`), the model uses sets and states results that do not depend on the order. `min_by` has a unique least element here.
- Rounds.Battle: a Ruby battle in which the two sides can never meet loops forever. The model plays at most `fuel` rounds and answers `None` when they run out.
- Rounds.PartOne: answers `None` when the battle does not end within `fuel` rounds, for the same reason.
- Game.PlayBattle: stops after `fuel` rounds, for the same reason.
- Game.ComputePartTwo: `bsearch` is modelled on the powers 4 to 200 themselves, not on the indices of `(4..200).to_a`. The steps are the same, offset by 4. When no power succeeds, Ruby's `bsearch` returns nil and `compute_part_one` then fails on `ap: nil`. The model answers `None`. The least-power property needs survival to be monotone in the power, which the model states as a premise (`Game.Monotone`) rather than proves.
- Rounds.Evolves does not state that hit points never rise; no property here needs it.
- Simulator.Map.NextMove: the `raise` of day15.rb:252-255 for a unit that should not move is a precondition (`ShouldMove`). `loop_units` calls `next_move` only after `should_move?` holds, so the raise is never reached there.
- Where the code and its description differ, the model follows the code.
  - `next_move` breaks distance ties by the reading order of the first step, not of the destination square.
  - The round in which combat ends is never counted, even when every unit acted in it.
  - The outcome sums the elves' hit points only.
  - `compute_part_one` gives elves power 4 unless told otherwise (`Game.ComputePartOne` defaults `ap` to 4).
- Deduction.Run: a program instruction whose register operand is not one of the four registers, or whose output is not, makes the run answer `None`. Ruby does not fail alike: a register number past the end reads `nil`. `banr`/`bani` with such an `i1` store `false` (`nil & x`). `borr`/`bori` with such an `i1` store `true` when the other operand is an integer and `false` when it is `nil` too (`nil | x`). `setr` copies `nil`. `eqir`/`eqri`/`eqrr` write 0 when one side is `nil` and the other an integer, and `eqrr` writes 1 when both are `nil`. `seti` reads no register. The arithmetic procs, the `gt*` procs, and `&`/`|` with an integer on the left and `nil` on the right raise. An output beyond register 3 grows the array.
- Deduction.CountLikeThree: samples are required to have four registers on each side and `i1`, `i2` below 4. Ruby's `addr` is tried first on every sample and raises otherwise.
- Deduction.Only: Ruby's `Set#first` on a one-element set; the model picks the same single name without modelling insertion order.
