# Advent of Code 2018 solutions, modelled in Dafny

This project models the puzzle solutions of an Advent of Code 2018
repository written in Rust, together with the grid and coordinate layer
they share. Each day's solution is one module. It keeps the source's form:
loops that update variables or grids in place are methods with loop
invariants, and pure computations are functions and lemmas. Each method is
proved against a specification function, and the lemmas prove what the
puzzle promises about those functions.

| module | source | what it covers |
|---|---|---|
| `Wrappers`, `Arithmetic` | — | `Option` and `Ordering`, Rust's truncating `%` and `/`, and small facts about division |
| `Coordinates` | common/src/coordinates.rs | points with Manhattan distance, neighbours and reading order; the offset row-major `Grid` class; the `GridLocis` iterator |
| `ColumnGrid` | lib/src/coordinates.rs, lib/src/grid.rs | the older column-major grid and its `GridCords` iterator, as written and corrected |
| `ChronalCalibration` | 1/src/main.rs, 1/main.rs | frequency sums and the first repeated running frequency |
| `InventoryManagement` | 2/src/main.rs | box-ID letter counts, the checksum, and the pair of IDs differing in one place |
| `SliceIt` | 3/src/main.rs | fabric claims, overlap counting and the intact claim |
| `ReposeRecord` | 4/src/main.rs, 4/main.rs | guard sleep schedules and the sleepiest guard and minute |
| `AlchemicalReduction` | 5/src/main.rs, 5/main.rs | the polymer reaction stack and the best unit to remove |
| `ChronalCoordinates` | 6/src/main.rs | closest-location areas with infinite areas pruned, and the safe region |
| `SumOfItsParts` | 7/src/main.rs | the alphabetical topological order and the timed worker pool |
| `MemoryManeuver` | 8/src/main.rs | the licence tree: decoding, metadata sums and node values |
| `ChronalCharge` | 11/src/main.rs | fuel-cell power levels and the best square, with the memoised sums of part B, on the row-major grid of common/src/coordinates.rs |
| `SubterraneanSustainability` | 12/src/main.rs | the plant automaton with its padding |
| `MineCartMadness` | 13/src/main.rs | carts on tracks, turns at intersections, crashes |
| `ChocolateCharts` | 14/src/main.rs | the recipe scoreboard and the search for a digit string |
| `BeverageBandits` | 15/src/main.rs | the goblin and elf battle: reading-order search, targeting, attacks, rounds |
| `Device` | 16/src/main.rs, 19/src/main.rs, 21/src/main.rs | the sixteen opcodes, opcode names, and the instruction-pointer run loop |
| `ChronalClassification` | 16/src/main.rs | matching samples to opcodes, deducing the opcode numbers, running the test program |
| `ReservoirResearch` | 17/src/shared.rs | water flowing through clay veins |
| `SettlersOfTheNorthPole` | 18/src/shared.rs, 18/src/main.rs | the lumber-collection automaton and its cycle detection |
| `GoWithTheFlow` | 19/src/main.rs | the program with an ip register and the divisor sum it computes |
| `RegularMap` | 20/src/shared.rs | the room regex: parsing, printing, and carving the map |
| `ChronalConversion` | 21/src/main.rs | the activation program and the 24-bit recurrence of part B |
| `ModeMaze` | 22/src/main.rs | cave generation, risk, and the tool-aware A* search |
| `ExperimentalEmergencyTeleportation` | 23/src/main.rs | nanobot ranges and the octree search for the best point |
| `ImmuneSystemSimulator` | 24/src/main.rs | the immune-system battle and the smallest winning boost |
| `FourDimensionalAdventure` | 25/src/main.rs | merging four-dimensional points into constellations |

Machine integers (`usize`, `isize`, `i64`, `u64`) are unbounded integers.
Loops that can run forever on some input take a `fuel` bound and report
running out of it. Panics (an `unwrap` of `None`, an index out of range)
become an `Option` or a dedicated result where inputs can cause them, and
preconditions where the source's callers rule them out. Parsing with
regular expressions, file reading and printing are replaced by the parsed
values as parameters.

## Model

| member | source | states |
|---|---|---|
| Coordinates.AddSubInverse | common/src/coordinates.rs:325-353 | subtracting a point undoes adding it, in both orders, and adding points commutes; the copy at lib/src/coordinates.rs:274-317 is the same code: the column-major files' point type has the same `add`/`sub`, which undo each other |
| Coordinates.Distance | common/src/coordinates.rs:320-323 | the Manhattan distance is zero exactly between equal points and is at least the gap along either axis |
| Coordinates.DistanceMetric | common/src/coordinates.rs:320-323 | the Manhattan distance is symmetric, satisfies the triangle inequality and does not change when both points are shifted by the same offset; the copy at lib/src/grid.rs:274-279 is the same code: the `Cord` Manhattan distance is symmetric and satisfies the triangle inequality |
| Coordinates.Neighbors | common/src/coordinates.rs:399-407 | the four neighbours are exactly the points at distance 1 |
| Coordinates.KeepInside | common/src/coordinates.rs:386-397 | the filter keeps exactly the points inside the half-open box and never adds any |
| Coordinates.ValidNeighbors | common/src/coordinates.rs:385-397 | the valid neighbours are exactly the points at distance 1 that lie on the grid, at most four |
| Coordinates.CmpTotalOrder | common/src/coordinates.rs:410-421 | points are compared in reading order, row first and then column; the order is total, antisymmetric and transitive, and equal only on equal points |
| Coordinates.RowMajorSpec | common/src/coordinates.rs:265-280 | the row-by-row enumeration of a box holds exactly its cells and is strictly increasing in reading order, so no cell appears twice |
| Coordinates.Grid.RawRealInverse | common/src/coordinates.rs:15-59 | converting a real coordinate to a raw index and back is the identity, and a real coordinate is inside the grid exactly when its raw index is below the width or height |
| Coordinates.Grid.NewOffset | common/src/coordinates.rs:110-118 | a new grid has the given frame and holds the default in every cell |
| Coordinates.Grid.Copy | common/src/coordinates.rs:167-177 | a cloned grid has the same frame and the same cells |
| Coordinates.Grid.Set | common/src/coordinates.rs:77-86 | setting a cell changes that cell to the value and leaves every other cell as it was |
| Coordinates.Grid.Locis | common/src/coordinates.rs:120-122 | a grid's coordinate iterator starts at the grid's first cell with the grid's frame and has produced nothing |
| Coordinates.GridLocis.Current | common/src/coordinates.rs:235-242 | the iterator has a current coordinate exactly while it is inside the grid |
| Coordinates.GridLocis.Next | common/src/coordinates.rs:265-280 | each step produces the current coordinate and moves strictly forward in reading order; once exhausted, the iterator has produced the whole row-by-row enumeration of the grid |
| Coordinates.CollectLocis | common/src/coordinates.rs:209-280 | draining the iterator yields every cell of the grid exactly once, in reading order |
| ColumnGrid.Grid.NewOffset | lib/src/coordinates.rs:37-50 | a new column-major grid has the given frame and holds the default in every cell; the copy at lib/src/grid.rs:37-50 is the same code: the `Cord`-named grid builds `width` columns of `height` defaults, the same as lib/src/coordinates.rs |
| ColumnGrid.Grid.Set | lib/src/coordinates.rs:19-21 | setting a cell through its column changes that cell and no other; the copy at lib/src/grid.rs:15-21 is the same code: the `Cord`-named grid's `set` changes only the addressed cell |
| ColumnGrid.GridCords.Next | lib/src/coordinates.rs:137-152 | as written, each step produces the current coordinate and moves one row down within the first column; once exhausted, it has produced only the first column |
| ColumnGrid.CollectCords | lib/src/coordinates.rs:109-152 | draining the iterator as written yields only the cells of column `x_offset`, from row `y_offset` to `height - 1`; the copy at lib/src/grid.rs:128-152 is the same code: the `Cord`-named iterator has the same defect: it yields only column `x_offset` |
| ColumnGrid.CordsMissesSecondColumn | lib/src/coordinates.rs:143-147 | on a 2 x 2 grid the iterator as written yields (0, 0) and (0, 1) and never the cell (1, 0) |
| ColumnGrid.ColumnMajorSpec | lib/src/coordinates.rs:109-152 | the column-by-column enumeration of a box holds exactly its cells and is strictly increasing, column first, so each appears once |
| ColumnGrid.FixedCords.Next | lib/src/coordinates.rs:137-152 | corrected, each step moves strictly forward column by column; once exhausted, the iterator has produced the whole column-major enumeration |
| ColumnGrid.CollectFixedCords | lib/src/coordinates.rs:109-152 | draining the corrected iterator yields every cell of the grid exactly once, column by column |
| Wrappers.CmpInt | common/src/coordinates.rs:416-421 | the integer comparison is Less, Equal or Greater exactly when the first value is below, equal to or above the second |
| ChronalCalibration.A | 1/src/main.rs:17-24 | part A answers the sum of all frequency changes; the copy at 1/main.rs:20-27 is the same code: the copy of `a` in 1/main.rs answers the same sum |
| ChronalCalibration.SumAppend | 1/src/main.rs:17-24 | the sum of a list of changes splits over concatenation |
| ChronalCalibration.RunningPrefix | 1/src/main.rs:30-45 | during the first pass over the list the running frequency is the sum of the changes applied so far |
| ChronalCalibration.RunningPeriodic | 1/src/main.rs:30-46 | restarting the iterator makes the running frequency periodic: one full pass later it is shifted by the sum of the list |
| ChronalCalibration.ZeroSumRepeats | 1/src/main.rs:26-49 | when the changes sum to zero some frequency is reached again one pass later, so part B terminates on such lists |
| ChronalCalibration.B | 1/src/main.rs:26-49 | part B as written: the answer is the running frequency at the first step whose value was already reached after an earlier step (the start frequency 0 not counting), all earlier ones being distinct; no answer within `fuel` steps means the first `fuel` running frequencies are distinct; the copy at 1/main.rs:29-52 is the same code: the copy of `b` in 1/main.rs is the same loop, with the same answer |
| ChronalCalibration.StartNotRecorded | 1/src/main.rs:27-40 | on the changes +1, -1 the start frequency 0 comes back after two changes, yet part B as written first sees a repeat after three changes and answers 1 |
| ChronalCalibration.FirstRepeat | 1/src/main.rs:26-49 | with the start frequency recorded, the answer is the first running frequency, counting the start, that is reached a second time; all earlier ones are distinct |
| ChronalCalibration.FirstRepeatOfZero | 1/src/main.rs:27-40 | with the start recorded, +1, -1 answers 0 after two changes |
| InventoryManagement.CountSplit | 2/src/main.rs:61-63 | occurrences of a letter split over any cut of the ID |
| InventoryManagement.CountAbsent | 2/src/main.rs:60-63 | a letter occurs zero times exactly when it is absent |
| InventoryManagement.FirstOccurrence | 2/src/main.rs:59-63 | counting from a letter's first position, as the source does for an unseen letter, counts every occurrence in the ID |
| InventoryManagement.IdLetterCount | 2/src/main.rs:54-76 | the two tallies are the numbers of distinct letters occurring exactly twice and exactly three times in the ID |
| InventoryManagement.A | 2/src/main.rs:14-31 | the checksum is the number of IDs with some letter exactly twice times the number with some letter exactly three times |
| InventoryManagement.DiffCommonSplit | 2/src/main.rs:78-90 | every position of `left` either differs from `right` or contributes its letter to the common string; no difference exactly when `left` is a prefix of `right`, exactly when the common string is all of `left` |
| InventoryManagement.DiffCommonPrefix | 2/src/main.rs:81-87 | extending the walk by one position adds one to the difference count or appends that letter to the common string |
| InventoryManagement.IdDiff | 2/src/main.rs:78-90 | `id_diff` counts the differing positions and returns the agreeing letters in order; together they account for every position |
| InventoryManagement.B | 2/src/main.rs:33-52 | part B answers for the first ID that has a partner differing in exactly one position, with its first such partner, their common letters (one fewer than the ID length); no answer exactly when no ID has such a partner |
| SliceIt.Dimensions | 3/src/main.rs:15-54 | the computed width and height exceed every claim's right and bottom edge, and each is one more than some claim's edge (or 1 with no claims): the smallest cloth of this construction that holds every claim |
| SliceIt.FillCloth | 3/src/main.rs:100-106 | `fill_cloth` adds exactly one to every square inside the claim and leaves every other square unchanged |
| SliceIt.A | 3/src/main.rs:61-80 | after `a` every square of the cloth holds the number of claims covering it, and the result counts the squares covered by more than one claim |
| SliceIt.B | 3/src/main.rs:82-98 | `b` answers the id of the first claim none of whose squares is covered by more than one claim, and answers nothing exactly when no claim is like that |
| SliceIt.CoverageAtLeast | 3/src/main.rs:100-106 | a square covered by two different claims is counted at least twice |
| SliceIt.CoverageWitnesses | 3/src/main.rs:100-106 | a square counted once is covered by some claim, and one counted twice by two different claims |
| SliceIt.IntactIffDisjoint | 3/src/main.rs:82-98 | the claim `b` looks for, all of whose squares are counted at most once, is exactly a claim that shares no square with any other claim |
| ReposeRecord.AddFrom | 4/src/main.rs:57-67 | adding a delta from a minute on changes exactly the counters from that minute to 59 |
| ReposeRecord.NapCountsHalfOpen | 4/src/main.rs:54-69 | falling asleep at `s` and waking at `w` counts the guard asleep exactly in the minutes `s` to `w - 1`, and leaves him awake with the same guard and stored tallies |
| ReposeRecord.RepeatsIgnored | 4/src/main.rs:54-69 | falling asleep while asleep and waking while awake change nothing |
| ReposeRecord.ShiftSavesAndResumes | 4/src/main.rs:70-91 | a shift change stores the running tally under the previous guard, resumes the new guard's stored tally (zeros for a new guard), and starts awake |
| ReposeRecord.Accumulate | 4/src/main.rs:45-93 | the record loop, with its 60-counter buffer updated in place, ends in the state of the record-by-record fold: guard on duty, his running tally and the stored tallies |
| ReposeRecord.CalculateGuardSchedules | 4/src/main.rs:42-107 | the tallies are the fold's stored tallies with the last guard's running tally written out, so the last guard on duty is always present |
| ReposeRecord.CalculateAsWritten | 4/main.rs:49-107 | the inline version's tallies, whose final write-out is commented out, are only the fold's stored tallies |
| ReposeRecord.LastShiftLost | 4/main.rs:101-102 | on one shift with one nap the inline version stores no tally at all, while the version with the write-out records the nap in minutes 5 to 24 only |
| ReposeRecord.SleepiestMinute | 4/src/main.rs:133-140 | the minute found has the largest count and is the first minute with it; minute 0 with count 0 when no count is positive |
| ReposeRecord.A | 4/src/main.rs:109-143 | strategy 1 picks a guard whose total sleep is the largest positive one, every guard before it in iteration order having a strictly smaller total (guard 0 when no total is positive), and, for that guard, the first minute with the largest count, every earlier minute strictly smaller; no answer, where the source's lookup fails, exactly when guard 0 is absent and no total is positive |
| ReposeRecord.B | 4/src/main.rs:145-160 | strategy 2 picks a guard and minute whose count is the largest of all counts, every pair before it in (iteration order, minute) having a strictly smaller count; guard 0 and minute 0 when no count is positive |
| AlchemicalReduction.ReduceLength | 5/src/main.rs:36-69 | the full reaction never lengthens the polymer, and units vanish in pairs |
| AlchemicalReduction.ReduceStable | 5/src/main.rs:36-69 | no two adjacent units of the fully reacted polymer react |
| AlchemicalReduction.ReduceUnits | 5/src/main.rs:36-69 | every unit left after the reaction is a unit of the input |
| AlchemicalReduction.ScanAsWrittenBound | 5/src/main.rs:39-66 | the stack never holds more units than were read, and never holds the sentinel or anything below it |
| AlchemicalReduction.CompressPolymer | 5/src/main.rs:36-69 | `compress_polymer` as written answers the size of the stack its scan builds, never more than the polymer's length; the copy at 5/main.rs:54-88 is the same code: the copy of `compress_polymer` in 5/main.rs is the same loop, with the same stack-size answer |
| AlchemicalReduction.SentinelReacts | 5/src/main.rs:37-57 | as written, `C` (code 67) reacts with the sentinel `#` (code 35): "C" followed by a newline compresses to 0 units, though a lone `C` cannot react |
| AlchemicalReduction.PendingUnitDropped | 5/src/main.rs:58-68 | the pending unit is only pushed when another character follows, so "aB" without a trailing newline counts 1; the input's newline is what flushes it |
| AlchemicalReduction.StepFixedShaped | 5/src/main.rs:42-66 | with the corrected rule, the stack holds only real units above the sentinel and a sentinel pending unit means an empty stack |
| AlchemicalReduction.StepFixedIsPush | 5/src/main.rs:42-66 | one corrected step acts on the stack-plus-pending-unit exactly like adding the unit to a fully reacted polymer |
| AlchemicalReduction.FixedIsReduce | 5/src/main.rs:36-69 | on units above the sentinel, the corrected scan's stack with its pending unit on top is exactly the fully reacted polymer |
| AlchemicalReduction.TerminatedFixedIsReduce | 5/src/main.rs:36-69 | the corrected `compress_polymer`, given a polymer plus a terminating newline, answers the length of the fully reacted polymer |
| AlchemicalReduction.CompressPolymerFixed | 5/src/main.rs:36-69 | the loop with the corrected rule (only a real pending unit reacts) answers the size of the corrected scan's stack |
| AlchemicalReduction.Remove | 5/src/main.rs:22-24 | the filtered polymer keeps exactly the units other than the removed letter in either case, and is no longer than the polymer |
| AlchemicalReduction.B | 5/src/main.rs:16-34 | `b` answers the least reacted length over the 26 letters removed in both cases, or `len + 1` when the alphabet is empty of candidates below it; the copy at 5/main.rs:34-52 is the same code: the copy of `b` in 5/main.rs answers the same least reacted length |
| AlchemicalReduction.BCandidateIsReduce | 5/src/main.rs:16-34 | on a newline-terminated polymer of letters, each candidate `b` compares is the fully reacted length of the polymer without that letter |
| ChronalCoordinates.Widen | 6/src/main.rs:23-35 | one call of the parsing closure keeps every location seen so far inside the running bounds, each bound equal to its start value or to the coordinate of a location seen so far |
| ChronalCoordinates.Extremes | 6/src/main.rs:14-39 | after parsing, every location lies within the running bounds; each minimum is some location's coordinate or `isize::MAX` when none is smaller, and each maximum is some location's coordinate or 0 when none is larger |
| ChronalCoordinates.Bounds | 6/src/main.rs:14-43 | the widened bounds put every location strictly inside the box; each minimum is one below some location's coordinate (or `isize::MAX - 1` with no locations), and each maximum is one above some location's coordinate or, when no coordinate exceeds the starting 0, exactly 1 |
| ChronalCoordinates.FindClosestLocation | 6/src/main.rs:171-194 | the answer is the location strictly nearer to the cell than every other one, and nothing when the least distance is tied or there are no locations |
| ChronalCoordinates.OwnerOnce | 6/src/main.rs:171-194 | a cell's owner occurs exactly once among the locations, since a copy of it would tie |
| ChronalCoordinates.RemoveFirstMultiset | 6/src/main.rs:119-128 | removing the first equal entry takes exactly one copy of that location out, or nothing when it is absent |
| ChronalCoordinates.PruneInfinite | 6/src/main.rs:119-128 | `prune_infinite` removes the first entry equal to the border cell's owner, and nothing for an unowned cell |
| ChronalCoordinates.PruneAllSpec | 6/src/main.rs:74-81 | pruning for a list of owners only removes locations, and removes every owner that occurs once among them |
| ChronalCoordinates.PruneOwners | 6/src/main.rs:74-81 | after pruning the owners of a list of cells, no location owning one of those cells is left, and nothing was added |
| ChronalCoordinates.PruneEdges | 6/src/main.rs:75-76 | one iteration of either pruning loop removes the owner of its first border cell and then the owner of its second, as `PruneAll` over the cells so far plus those two |
| ChronalCoordinates.PruneTopBottom | 6/src/main.rs:74-77 | the first pruning loop removes the owners of every column's top and bottom cell, in column order |
| ChronalCoordinates.PruneLeftRight | 6/src/main.rs:78-81 | the second pruning loop then removes the owners of every inner row's first and last cell |
| ChronalCoordinates.AExcludesBorderOwners | 6/src/main.rs:70-81 | no location owning a border cell, whose area therefore reaches the edge, is left among the candidates of `a` |
| ChronalCoordinates.CellsInBox | 6/src/main.rs:66-68 | corrected (full column-major enumeration in place of the as-written `GridCords`): the cells the grid iteration visits are exactly the cells of the box |
| ChronalCoordinates.SetOwner | 6/src/main.rs:66-68 | one iteration of the fill loop stores the owner of the next enumerated cell and keeps the cells already filled |
| ChronalCoordinates.BuildOwnerGrid | 6/src/main.rs:59-68 | corrected (fills every cell, where the as-written `GridCords` fills only the first column): after the fill loop every grid cell holds its owner as FindClosestLocation defines it |
| ChronalCoordinates.CountArea | 6/src/main.rs:100-109 | the area of a location is the number of cells it owns |
| ChronalCoordinates.MaxArea | 6/src/main.rs:98-114 | the result is the largest area among the remaining locations, or 0 when there are none |
| ChronalCoordinates.A | 6/src/main.rs:58-117 | `a` answers the largest area owned by a location that owns no border cell, or 0 |
| ChronalCoordinates.TotalDistancePrefix | 6/src/main.rs:139-146 | a partial sum of distances never exceeds the full sum, so abandoning a cell once the partial sum passes the range is sound |
| ChronalCoordinates.WithinRange | 6/src/main.rs:139-146 | the inner loop of `b` accepts a cell exactly when its total distance to all locations is within the range |
| ChronalCoordinates.MarkRegion | 6/src/main.rs:138-150 | after marking, each cell holds 1 when its total distance is within the range and 0 otherwise |
| ChronalCoordinates.SumRegion | 6/src/main.rs:163-166 | the fold adds up to the number of cells within the range |
| ChronalCoordinates.B | 6/src/main.rs:131-169 | `b` answers the number of cells of the box whose total distance to all locations is within the range |
| SumOfItsParts.TableSpec | 7/src/main.rs:39-55 | the table has an entry exactly for each step named in a dependency, holding that step's prerequisites in input order |
| SumOfItsParts.CollectDependsOn | 7/src/main.rs:41-55 | the insertion loop builds exactly `Table(deps)` |
| SumOfItsParts.Sort | 7/src/main.rs:57-59 | `sort` returns a sorted permutation of the prerequisite list |
| SumOfItsParts.SortAll | 7/src/main.rs:57-59 | every list of the table is sorted and keeps its elements; the keys are unchanged |
| SumOfItsParts.BuildDependsOn | 7/src/main.rs:39-59 | the built table has the keys of `Table(deps)` and each list is a sorted permutation of its entry, so it holds the same prerequisites |
| SumOfItsParts.TableSteps | 7/src/main.rs:20-31 | dependencies over 'A'..='Z' give a table over 'A'..='Z' |
| SumOfItsParts.FirstReadySpec | 7/src/main.rs:76-97 | the scan finds nothing exactly when no step is ready, and otherwise no alphabetically earlier step is ready |
| SumOfItsParts.FindReady | 7/src/main.rs:76-97 | the scan with the `fold` over prerequisites returns the first ready step in 'A'..='Z' order |
| SumOfItsParts.RunOrder | 7/src/main.rs:69-100 | the `'outer` loop emits exactly `Order(dependsOn, {})`, one first-ready step per restart |
| SumOfItsParts.A | 7/src/main.rs:38-105 | part A's order is `Order(Table(deps), {})` |
| SumOfItsParts.OrderSame | 7/src/main.rs:57-59 | the order depends only on which prerequisites each entry holds, so sorting the lists does not change it |
| SumOfItsParts.OrderSpec | 7/src/main.rs:75-100 | the emitted steps are distinct, were not run before, and each has all of its prerequisites emitted before it |
| SumOfItsParts.OrderComplete | 7/src/main.rs:75-100 | when the order stops, no step outside it is ready |
| SumOfItsParts.InitialTree | 7/src/main.rs:148-151 | every step starts Waiting with `c - '@' + worker_time` seconds left |
| SumOfItsParts.FirstStartableSpec | 7/src/main.rs:158-182 | the worker scan finds nothing exactly when no Waiting step has all prerequisites Done, and otherwise the alphabetically first |
| SumOfItsParts.FindStartable | 7/src/main.rs:158-182 | the inner scan returns the first startable step in 'A'..='Z' order |
| SumOfItsParts.TakeFirst | 7/src/main.rs:158-182 | one pass of the `'workers_loop` marks the first startable step Running and pushes it on the worker list, or changes nothing when no step can start |
| SumOfItsParts.Assign | 7/src/main.rs:157-183 | the `'workers_loop` makes `workers - worker_tasks.len()` such passes, no more |
| SumOfItsParts.TakenShape | 7/src/main.rs:158-182 | a pass pushes at most one step, pushes none only when no step can start, and leaves the total work left and every Done entry alone |
| SumOfItsParts.AssignedShape | 7/src/main.rs:157-183 | after `k` passes the worker list grew by at most `k`; if it grew by less, no step can start; work left and Done entries are unchanged |
| SumOfItsParts.StartOne | 7/src/main.rs:169-176 | marking a startable step Running and pushing it keeps the schedule invariant |
| SumOfItsParts.TakenSched | 7/src/main.rs:169-176 | a pass keeps the schedule invariant with the started step starting now, and keeps every Done step Done with its start time |
| SumOfItsParts.AssignedSched | 7/src/main.rs:157-183 | any number of passes keeps the schedule invariant and the Done steps with their start times |
| SumOfItsParts.AssignedKeeps | 7/src/main.rs:157-183 | the whole `'workers_loop` keeps the schedule invariant, never exceeds the free workers, leaves a worker idle only when no step can start, and leaves finished steps alone |
| SumOfItsParts.SurvivorsSpec | 7/src/main.rs:193-210 | the tasks kept are those with more than one second left, each once, in worker order |
| SumOfItsParts.TickedOther | 7/src/main.rs:193-210 | a step no worker holds keeps its run-table entry |
| SumOfItsParts.TickedSpec | 7/src/main.rs:193-210 | each step held by a worker (once each) loses one second and becomes Done at zero; every other entry is unchanged |
| SumOfItsParts.Tick | 7/src/main.rs:193-210 | the `filter_map` loop leaves the run table `Ticked(tree, tasks)` and keeps `Survivors(tree, tasks)` |
| SumOfItsParts.Work | 7/src/main.rs:192-210 | one second of work leaves exactly `WorkAll(p)` |
| SumOfItsParts.TickedLeft | 7/src/main.rs:193-210 | a second of work takes exactly one second per busy worker off the total work left |
| SumOfItsParts.TickPreceded | 7/src/main.rs:193-210 | after a second of work every started step still started after its prerequisites finished |
| SumOfItsParts.TickKept | 7/src/main.rs:193-210 | the steps the workers still hold are Running |
| SumOfItsParts.TickClock | 7/src/main.rs:193-212 | a step still Running has worked every second since it started and is still held; a Done step finished by the new time; a Waiting step is untouched |
| SumOfItsParts.TickFinished | 7/src/main.rs:193-212 | if a second of work frees every worker, some step finished exactly at the new time |
| SumOfItsParts.TickSched | 7/src/main.rs:193-212 | a second of work keeps the schedule invariant one second later; if every worker finishes, some step finished at the new time |
| SumOfItsParts.AdvanceKeeps | 7/src/main.rs:155-212 | a second in which some worker is busy keeps the schedule invariant one second later, never holds more tasks than workers, and does between one and `workers` seconds of work |
| SumOfItsParts.SecondsKeeps | 7/src/main.rs:153-213 | while the loop has not stopped, the greedy schedule after `n` seconds keeps the schedule invariant, holds at most `workers` tasks, and has done between `n` and `workers * n` seconds of work |
| SumOfItsParts.BusySpec | 7/src/main.rs:185-188 | `Busy(n)` holds exactly when the loop did not stop at any second before `n` |
| SumOfItsParts.BusyStep | 7/src/main.rs:155-213 | every second the loop does not stop at strictly reduces the work left, so the loop ends |
| SumOfItsParts.IdleEnd | 7/src/main.rs:185-188 | at the second the loop stops nothing runs, nothing can start, each Done step started after its prerequisites finished and finished by then, some step finished exactly then, and total work lies between `n` and `workers * n` |
| SumOfItsParts.Schedule | 7/src/main.rs:153-213 | the loop answers the first second at which the greedy schedule `Seconds` leaves every worker idle, and that second's run table |
| SumOfItsParts.Second | 7/src/main.rs:155-212 | one pass of the loop: the free workers take exactly the greedy assignment of second `time`, and when some worker is busy the pool that results is the schedule at `time + 1`, with less work left |
| SumOfItsParts.FirstStartableSame | 7/src/main.rs:126-128 | the worker scan depends only on which prerequisites each entry holds |
| SumOfItsParts.AssignedSame | 7/src/main.rs:126-128 | so does the whole `'workers_loop` |
| SumOfItsParts.SecondsSame | 7/src/main.rs:126-128 | so does the whole greedy schedule: sorting the prerequisite lists changes neither it nor the second the loop stops |
| SumOfItsParts.B | 7/src/main.rs:107-215 | part B's time is the first second at which the greedy schedule over `Table(deps)` (2 workers and 0 extra seconds on the sample, 5 and 60 otherwise) leaves every worker idle; at that second nothing runs or can start, every finished step started after its prerequisites finished, some step finished exactly then, and the work done lies between `time` and `workers * time` |
| MemoryManeuver.SumAppend | 8/src/main.rs:62-65 | the metadata fold is additive over concatenation |
| MemoryManeuver.Decode | 8/src/main.rs:27-52 | a decoded node has exactly `data[start]` children and `data[start + 1]` metadata entries and ends past its two-number header, inside the data |
| MemoryManeuver.DecodeEncode | 8/src/main.rs:27-52 | decoding the encoding of any node, wherever it sits in the data, gives that node back and ends just past it |
| MemoryManeuver.DecodeEncodeAll | 8/src/main.rs:34-40 | decoding the encodings of consecutive children gives them back in order |
| MemoryManeuver.EncodeDecode | 8/src/main.rs:27-52 | whatever decodes was spelled by exactly the numbers consumed, so the returned offset is just past the node |
| MemoryManeuver.EncodeDecodeChildren | 8/src/main.rs:34-40 | decoded children were spelled by exactly the numbers consumed |
| MemoryManeuver.ParseNode | 8/src/main.rs:27-52 | `parse_node` reads the counts, the children recursively, then the metadata, and returns exactly `Decode(data, start)` (None where the source would index past the end) |
| MemoryManeuver.SumMetadataIsTotal | 8/src/main.rs:55-68 | `sum_metadata` equals the sum of every metadata entry in the tree |
| MemoryManeuver.SumDataAppend | 8/src/main.rs:86-98 | for a node with children, each metadata entry adds the value of child `entry - 1`, and 0 when it is 0 or past the last child |
| MemoryManeuver.NoNamedChild | 8/src/main.rs:89-95 | entries that are 0 or past the last child contribute nothing |
| MemoryManeuver.LeafValue | 8/src/main.rs:77-83 | a leaf's value is its metadata sum |
| MemoryManeuver.SampleDecodes | 8/src/main.rs:20 | the puzzle's example decodes to its four-node tree |
| MemoryManeuver.SampleAnswers | 8/src/main.rs:54-104 | the example's metadata sum is 138 and its root value is 66 |
| Arithmetic.Rem | 11/src/main.rs:82 | Rust's `%` truncates toward zero: the remainder lies strictly between -b and b and agrees with the Euclidean one on non-negative operands |
| ChronalCharge.PowerLevel | 11/src/main.rs:76-86 | every power level lies between -14 and 4, whatever the serial number (negative products included) |
| ChronalCharge.HundredsDigit | 11/src/main.rs:76-86 | for non-negative products the level is the hundreds digit of ((x + 10) * y + serial) * (x + 10) minus 5, so between -5 and 4 |
| ChronalCharge.PowerExamples | 11/src/main.rs:9-12 | the four power levels `main` asserts: 4, -5, 0 and 4 |
| ChronalCharge.Charge | 11/src/main.rs:17-23 | the grid built by `main` is 300 by 300 from (1, 1), and the fill over `grid.locis()` (every cell, row by row) leaves every cell holding its own power level |
| ChronalCharge.SquareSplit | 11/src/main.rs:108-117 | a square splits into its top row, its left column below that row and the square one smaller at (x + 1, y + 1) |
| ChronalCharge.SumPowerSimple | 11/src/main.rs:88-99 | the nested loops sum exactly the cells of the square of the given side at the given corner |
| ChronalCharge.SumPower | 11/src/main.rs:101-126 | the result is the sum of the square whether computed directly or from the memoised smaller square, it is recorded under (x, y) and the side, no other cell of the memo changes and every recorded sum stays correct |
| ChronalCharge.A | 11/src/main.rs:30-51 | the reported corner's 3x3 square has the largest power among corners passing the guard, every corner earlier in the reading order of `grid.locis()` (row y first, then x) is strictly weaker, so of equal powers the first visited is kept, and (0, 0) is reported exactly when no square has positive power |
| ChronalCharge.ScanA | 11/src/main.rs:33-48 | the loop of `a` keeps the maximum of the corners seen so far and the first index that attains it |
| ChronalCharge.B | 11/src/main.rs:53-74 | the reported corner and side give the largest power over all squares of side 1 to 20, every square visited earlier (by side, x, y) is strictly weaker, and (0, 0) of side 0 is reported when no square has positive power |
| ChronalCharge.SweepAll | 11/src/main.rs:54-72 | the outer loop over the sides 1 to 20, started from the record (0, 0) of side 0 and power 0, leaves the running maximum over every square of every side |
| ChronalCharge.SweepLength | 11/src/main.rs:60-71 | one side's pass records that side at every corner where it fits and keeps the running maximum over all squares visited |
| ChronalCharge.SweepColumn | 11/src/main.rs:61-70 | one column's pass records the side at every corner of the column and keeps the running maximum |
| ChronalCharge.SweepCorner | 11/src/main.rs:62-69 | one corner of the inner loop records the side at that corner; afterwards no square swept so far, this one included, beats the recorded power, every square swept before the record is strictly weaker, and the record is a square of that power (or the start record (0, 0), side 0, power 0) |
| ChronalCharge.Visit | 11/src/main.rs:63 | `sum_power` at a corner whose smaller square was recorded in the previous pass returns that square's sum and loses no recorded side |
| SubterraneanSustainability.Growing | 12/src/main.rs:26-46 | the kept transitions are exactly the growing ones of the input, none added |
| SubterraneanSustainability.LookupGrowing | 12/src/main.rs:144-152 | over growing transitions only, `transition` yields a plant exactly when some transition's state equals the five-pot window |
| SubterraneanSustainability.ApplyTransitions | 12/src/main.rs:144-152 | the scan returns the outcome of the first matching transition and false when none matches |
| SubterraneanSustainability.PadKeepsPots | 12/src/main.rs:95-111 | inserting empty pots at the front while moving `zero` by the same amount, and resizing at the back, leaves every pot number's plant where it was |
| SubterraneanSustainability.PadEnds | 12/src/main.rs:95-111 | after the checks reaching `reach` pots, the first and last `reach` pots of the row are empty |
| SubterraneanSustainability.StepSound | 12/src/main.rs:94-124 | with checks reaching four pots and five empty pots growing nothing, a pot holds a plant after one generation exactly when the transitions grow one from its five-pot window |
| SubterraneanSustainability.IterateSound | 12/src/main.rs:94-124 | after any number of generations the row agrees, pot for pot, with the automaton on the endless row |
| SubterraneanSustainability.MissedPlant | 12/src/main.rs:95-119 | as written (three pots checked), the row `...#` with the single rule `....# => #` loses the plant pot 1 should grow |
| SubterraneanSustainability.LowestIsLeast | 12/src/main.rs:126-139 | the reported lowest plant is a plant and no plant lies below it; with no plants it stays `isize::MAX` |
| SubterraneanSustainability.ScoreOfPad | 12/src/main.rs:126-139 | the sum and count of plants do not depend on how much padding surrounds them |
| SubterraneanSustainability.PadFront | 12/src/main.rs:95-103 | corrected (offsets 0 to 3, where the source checks 0..=2): the front check inserts 4 - offset empty pots before a plant at offset and moves `zero` by the same amount, otherwise leaves the row alone |
| SubterraneanSustainability.PadBack | 12/src/main.rs:105-111 | corrected (offsets 1 to 4, where the source checks 1..=3): the back check extends the row by 5 - offset empty pots after a plant at len - offset, otherwise leaves it alone |
| SubterraneanSustainability.Fill | 12/src/main.rs:113-119 | pots 2 to len - 3 of the new buffer come from the five pots around them in the old one; the end pots keep the buffer's old contents |
| SubterraneanSustainability.Generation | 12/src/main.rs:94-124 | corrected (four-pot padding): one pass of the double buffer is one `Step`, and the stale end pots of the swapped buffer are always empty |
| SubterraneanSustainability.RunGenerations | 12/src/main.rs:84-142 | corrected (four-pot padding): the returned sum, lowest plant and count are those of the row after the given number of generations |
| SubterraneanSustainability.Score | 12/src/main.rs:126-141 | the closing loop computes the sum of plant pot numbers, the lowest of them and their count |
| MineCartMadness.Intersection | 13/src/main.rs:288-313 | the next turn of the Left, Straight, Right rotation is taken and recorded: Left turns counter-clockwise, Right clockwise, Straight keeps the direction; `moved` is kept |
| MineCartMadness.ThreeIntersections | 13/src/main.rs:288-329 | three intersections in a row bring a train back to its direction and recorded turn |
| MineCartMadness.FirstIntersectionLeft | 13/src/main.rs:60-65 | a parsed train (last turn Right) turns left at its first intersection |
| MineCartMadness.TurnTo | 13/src/main.rs:315-321 | only the direction changes |
| MineCartMadness.CurvesReverse | 13/src/main.rs:211-256 | each curve turns a quarter, and a train leaving a curve and coming back the other way leaves it the way it came in |
| MineCartMadness.NextTrainSteps | 13/src/main.rs:211-259 | a train moves exactly one cell (Manhattan distance 1) in the direction it faced, keeps its flag, never reverses, and takes the `/` and `\` curve mapping |
| MineCartMadness.UnderTrackConnects | 13/src/main.rs:262-285 | `+` exactly when all four sides connect; the piece found connects on every side it opens; each curve on exactly its two sides; a straight run through the cell always yields a piece |
| MineCartMadness.Visit | 13/src/main.rs:109-198 | one loop body keeps the grid's shape |
| MineCartMadness.Tick | 13/src/main.rs:109-199 | a whole pass over the grid keeps its shape |
| MineCartMadness.CountPut | 13/src/main.rs:115-192 | writing one cell changes the number of matching cells by what left and what arrived, nothing more |
| MineCartMadness.FindTrain | 13/src/main.rs:203-208 | returns a cell holding a train, or None exactly when no cell holds one |
| MineCartMadness.OnlyTrain | 13/src/main.rs:203-208 | with one train on the grid it is found and every other cell is empty |
| MineCartMadness.RowStays | 13/src/main.rs:134-136 | once a pass has stopped, the rest of the row changes nothing |
| MineCartMadness.RowsStay | 13/src/main.rs:134-136 | once a pass has stopped, every later row changes nothing |
| MineCartMadness.VisitPending | 13/src/main.rs:111-125 | after visiting (x, y) no train due to move sits at or before (x, y): a moved train lands with the tick's flag |
| MineCartMadness.VisitCounts | 13/src/main.rs:163-198 | `train_count` minus the trains already moved this tick never changes |
| MineCartMadness.VisitKeepsTrains | 13/src/main.rs:109-132 | in part A a visit that does not stop the pass keeps every train |
| MineCartMadness.VisitRemovesPair | 13/src/main.rs:175-196 | in part B a collision takes exactly two trains off the grid and any other visit keeps them all |
| MineCartMadness.VisitCrashSite | 13/src/main.rs:119-123 | a stopped collision happens only in part A and names a cell holding a train |
| MineCartMadness.RowKeeps | 13/src/main.rs:110-198 | through a row, due trains stay ahead of the scan, the count stays in step and a collision site stays valid |
| MineCartMadness.RowsKeep | 13/src/main.rs:109-199 | the same through whole rows |
| MineCartMadness.TickMovesAll | 13/src/main.rs:109-201 | after a pass that was not stopped every train has moved exactly once, `train_count` is the number of trains left, and part A lost no train |
| MineCartMadness.RunAFindsTrain | 13/src/main.rs:92-144 | `a` reports a cell of the grid holding the train that was run into |
| MineCartMadness.RunBFixedFindsLast | 13/src/main.rs:146-209 | `b`, corrected, reports the cell of a train and every other cell is empty |
| MineCartMadness.RunBReportsCrashedTrain | 13/src/main.rs:188-208 | on the row `->-->-<-` `b` as written reports (5, 0), an empty cell, while the one train left is at (2, 0), which the corrected `b` reports |
| MineCartMadness.MoveCell | 13/src/main.rs:111-197 | the loop body on the grid object leaves it and the returned count, last cell and outcome as `Visit` says |
| MineCartMadness.MoveAll | 13/src/main.rs:109-199 | the nested loops over the grid object, leaving part A's pass at its first collision, give the grid and results of `Tick` |
| MineCartMadness.A | 13/src/main.rs:92-144 | on a copy of the trains grid, ticks with the flag starting true and flipping give `RunA`'s outcome |
| MineCartMadness.B | 13/src/main.rs:146-209 | on a copy of the trains grid, ticks until `train_count` is 1 give the corrected `b`'s outcome |
| ChocolateCharts.Digits | 14/src/main.rs:91-113 | the decimal digits of a number: at least one, each below ten, and the first is zero exactly for the number zero |
| ChocolateCharts.DigitsValue | 14/src/main.rs:91-113 | reading the digits back gives the number |
| ChocolateCharts.ValueDigits | 14/src/main.rs:91-113 | a digit sequence without a leading zero is the digits of the number it spells (round trip the other way) |
| ChocolateCharts.SplitNum | 14/src/main.rs:91-113 | the remainder-by-growing-powers loop, with its special case for 0, yields exactly the decimal digits, most significant first |
| ChocolateCharts.DigitText | 14/src/main.rs:115-121 | the text of a sequence of scores below ten has one character per score, that score's digit |
| ChocolateCharts.TextInjective | 14/src/main.rs:115-121 | two digit sequences have the same text if and only if they are equal |
| ChocolateCharts.DigitsText | 14/src/main.rs:115-121 | the text of a number's digits is the number's own decimal text |
| ChocolateCharts.Cook | 14/src/main.rs:71-89 | a round keeps every elf on the board and every score one digit, and only appends: earlier scores are unchanged and the board grows |
| ChocolateCharts.TwoElvesCook | 14/src/main.rs:71-89 | with two elves a round appends at most two scores |
| ChocolateCharts.IterateExtends | 14/src/main.rs:27-43 | a later scoreboard extends every earlier one: a score once written never changes |
| ChocolateCharts.TenScoresStable | 14/src/main.rs:27-31 | the ten scores `a` reports are those of any longer run of rounds, so do not depend on when the loop stops |
| ChocolateCharts.Find | 14/src/main.rs:54 | `find` gives the first position at or after the start where the string occurs, or None when it occurs nowhere |
| ChocolateCharts.TextAt | 14/src/main.rs:50-54 | the string occurs in the text of a window at i if and only if the digits occur on the board at the window start plus i |
| ChocolateCharts.SearchAsWrittenLate | 14/src/main.rs:42-64 | every position `b` as written reports ends past the scores the board held before its first round |
| ChocolateCharts.MissesFirstScore | 14/src/main.rs:42-64 | the initial board starts with 3, yet `b(3)` as written never answers 0 |
| ChocolateCharts.WindowFirst | 14/src/main.rs:46-54 | when nothing matched before the window, the window search gives the first occurrence on the board, or None when there is none |
| ChocolateCharts.CookKeepsClear | 14/src/main.rs:43-89 | after a round, a string absent from the old board can only newly occur inside the next window (the last length + 1 scores) |
| ChocolateCharts.SearchFixedFirst | 14/src/main.rs:42-64 | the corrected search answers a position where the string occurs on the scoreboard after some rounds, and it occurs at no earlier position |
| ChocolateCharts.BFindsFirst | 14/src/main.rs:34-64 | from the initial board, the corrected `b(n)` answers the first position of the digits of n |
| ChocolateCharts.Scoreboard.constructor | 14/src/main.rs:22-38 | two elves on recipes 0 and 1 of the board [3, 7] |
| ChocolateCharts.Scoreboard.CookRecipes | 14/src/main.rs:71-89 | the vectors updated in place become the next round of `Cook` |
| ChocolateCharts.SearchWindow | 14/src/main.rs:46-54 | the search of the text of the last length + 1 scores is the window search on digits |
| ChocolateCharts.A | 14/src/main.rs:21-32 | the text of the ten scores after the first `num_recipes`, on a board grown until it holds them |
| ChocolateCharts.Hunt | 14/src/main.rs:42-64 | the search-then-cook loop on the vectors answers what the corrected search specifies |
| ChocolateCharts.B | 14/src/main.rs:34-64 | the corrected `b` answers what the corrected search specifies, so (by BFindsFirst) the first occurrence |
| BeverageBandits.Enemy | 15/src/main.rs:394-401 | each species' enemy is the other species |
| BeverageBandits.CmpUnitReadingOrder | 15/src/main.rs:378-383 | units compare by row, then by column: the reading order of their positions; equal exactly at the same position, species and health playing no part |
| BeverageBandits.InRangeIsNeighbour | 15/src/main.rs:238-251 | an enemy is in range exactly when it stands on one of the four orthogonal neighbours of the unit |
| BeverageBandits.ContainsUnit | 15/src/main.rs:206-211 | a cell holds a unit exactly when some live unit of the list stands there (live meaning `is_alive`, health above 0, 15/src/main.rs:234-236, as IsAlive states); dead units do not block |
| BeverageBandits.IsSpaceOpen | 15/src/main.rs:220-225 | a cell is open space exactly when it is on the map, not a wall, and no live unit stands on it; off-map cells are never open, as the BeverageBandits.IsWall line of "## Left out" says |
| BeverageBandits.WalledNeighbors | 15/src/main.rs:220-225 | on a map whose edge cells are all walls, every neighbour of an open on-map cell is on the map, so the lookup of `is_space_open` stays inside the grid |
| BeverageBandits.Heuristic | 15/src/main.rs:290-294 | the Manhattan estimate to the goal drops by at most one per orthogonal step |
| BeverageBandits.Relax | 15/src/main.rs:346-370 | a new neighbour is appended to the open list; a known one keeps its record when the new score is worse, or equal while its recorded predecessor comes first in reading order, and otherwise gets `current` as predecessor with score one more; no other cell's record changes |
| BeverageBandits.SearchNeighbors | 15/src/main.rs:338-344 | the candidates are exactly the orthogonal neighbours of `current` that are the goal or open space and not yet closed, each once |
| BeverageBandits.FirstMin | 15/src/main.rs:307-317 | the fold over the open cells from `isize::MAX` picks an open cell of least f-score, and every cell before it scores strictly higher, since a later cell replaces the best only when strictly lower |
| BeverageBandits.PopFirstMin | 15/src/main.rs:307-317 | the chosen open cell has the least f-score, and is the first open cell with that score: the index FirstMin describes |
| BeverageBandits.Without | 15/src/main.rs:331-333 | the open list loses exactly the current cell and keeps the rest distinct |
| BeverageBandits.InvChain | 15/src/main.rs:296-371 | between iterations every recorded predecessor is one step away with a g-score one lower, reaching back to the start |
| BeverageBandits.Backtrack | 15/src/main.rs:319-329 | following the predecessors back from the goal gives a path that leaves out the start, ends at the goal, moves one orthogonal step at a time, crosses only open space before the goal, and is as long as the goal's g-score; it is exactly the `came_from` walk back that BackFrom describes |
| BeverageBandits.BackFromAppend | 15/src/main.rs:320-326 | collecting the walk back behind cells already collected puts it in front of them, so pushing and then reversing gives the walk back in forward order |
| BeverageBandits.BackFromChain | 15/src/main.rs:321-325 | following the recorded predecessors back from a reached cell gives a walk from next to the start up to that cell, one orthogonal step at a time through passable cells, the i-th cell at g-score i + 1 |
| BeverageBandits.BackFromPath | 15/src/main.rs:319-328 | the walk back from the goal is a path to it with exactly as many cells as the goal's g-score |
| BeverageBandits.WalksStayClosed | 15/src/main.rs:306-374 | when the search runs out of open cells, every walk from the start through open space ends in a closed cell, so it cannot reach the goal |
| BeverageBandits.RelaxKeepsRecords | 15/src/main.rs:346-370 | relaxing a neighbour keeps the search records: open cells distinct, unclosed and scored, every predecessor closed and one step and one score lower, and every score non-negative |
| BeverageBandits.RelaxKeepsScores | 15/src/main.rs:366-369 | relaxing keeps the start's score 0 with no predecessor, keeps every closed cell scored, and keeps every cell within the map, start or goal |
| BeverageBandits.PassableInCells | 15/src/main.rs:220-225 | a cell the search may enter is on the map, or is the goal |
| BeverageBandits.RelaxKeepsOpen | 15/src/main.rs:346-349 | relaxing keeps the open cells distinct, unclosed and scored |
| BeverageBandits.RelaxKeepsPredecessors | 15/src/main.rs:366-369 | each recorded predecessor stays closed, one step away and one lower in g-score |
| BeverageBandits.RelaxKeepsClosedUnder | 15/src/main.rs:346-370 | once a pending neighbour is relaxed, it is known to the search |
| BeverageBandits.RelaxKeepsSettled | 15/src/main.rs:346-370 | relaxing a neighbour that is not closed leaves every closed cell's g-score a least walk length |
| BeverageBandits.RelaxKeepsScored | 15/src/main.rs:366-369 | relaxing keeps every open cell's f-score equal to its g-score plus the Manhattan estimate to the goal |
| BeverageBandits.RelaxEachKeeps | 15/src/main.rs:346-370 | relaxing the pending neighbours one after the other restores the whole search invariant once `current` is closed |
| BeverageBandits.RelaxAll | 15/src/main.rs:346-370 | the `for neighbor in neighbors` loop restores the search invariant and leaves the state that relaxing the neighbours in order gives (RelaxEach) |
| BeverageBandits.WalkSpan | 15/src/main.rs:290-294 | a walk of orthogonal steps spans at most as much Manhattan distance as it has steps, so the estimate never exceeds the remaining walk |
| BeverageBandits.WalkToGoal | 15/src/main.rs:319 | a walk through open space that reaches the goal can be cut at its first visit to the goal, giving a no longer walk the search can follow |
| BeverageBandits.PopSettles | 15/src/main.rs:306-317 | the open cell of least f-score is settled: no walk the search can follow reaches it in fewer steps than its g-score, because the Manhattan estimate drops by at most one per step |
| BeverageBandits.PopSettlesAll | 15/src/main.rs:306-317 | the cell the fold picks is settled against every walk the search can follow to it |
| BeverageBandits.GoalShortest | 15/src/main.rs:319-328 | a path as long as the goal's settled g-score is no longer than any walk through open space to the goal |
| BeverageBandits.SearchGoesOn | 15/src/main.rs:306-371 | under the search invariant, one iteration answers the path back when the least-f cell is the goal, and otherwise goes on from the state after closing it and relaxing its neighbours |
| BeverageBandits.CloseCurrent | 15/src/main.rs:331-334 | moving the chosen cell from the open list to the closed set keeps the search invariant, with its eligible neighbours pending |
| BeverageBandits.FindShortestPath | 15/src/main.rs:286-375 | a returned path leaves out the start, ends at the goal, moves one orthogonal step at a time and crosses only open space before the goal; `None` only when no walk through open space reaches the goal; a returned path is a shortest one, no walk through open space reaching the goal in fewer steps; and the answer is the one the functional search `Search` gives |
| BeverageBandits.PickPath | 15/src/main.rs:263-282 | one fold step keeps the first path when there is none before it; otherwise it answers one of the two, no longer than either, and takes the new path exactly when it is strictly shorter, or equally long and non-empty with its last cell first in reading order |
| BeverageBandits.SelectPathSpec | 15/src/main.rs:257-283 | the chosen path is one of the paths found and is no longer than any of them; among equally long ones its last cell is first in reading order; nothing is chosen only when no path was found |
| BeverageBandits.Positions | 15/src/main.rs:257-261 | the positions listed are those of the indexed units, in order |
| BeverageBandits.Values | 15/src/main.rs:129-137 | the units listed are the indexed units, in order |
| BeverageBandits.FindClosestEnemyPath | 15/src/main.rs:253-283 | one search per enemy, in order: each found path is a path to that enemy, each failed search means no walk reaches it, each found path is a shortest one, the answer is the one SelectPathSpec describes and is no longer than any walk to any enemy, and the searches are the ones `Searches` lists |
| BeverageBandits.SearchesAt | 15/src/main.rs:257-262 | the k-th search answer is the search toward the k-th enemy |
| BeverageBandits.ClosestIsShortest | 15/src/main.rs:263-282 | when each search found a shortest path or showed its enemy unreachable, the chosen path is no longer than any walk to any enemy |
| BeverageBandits.SearchedAll | 15/src/main.rs:257-283 | the searches, each answered as `Search` does, give paths to their enemies that are shortest, failures only for unreachable enemies, and a chosen path no longer than any walk to any enemy |
| BeverageBandits.InsertUnitSpec | 15/src/main.rs:118-119 | inserting a unit into a list sorted in reading order, after every unit not after it, keeps the list sorted and adds exactly that unit |
| BeverageBandits.StableSortSpec | 15/src/main.rs:118-119 | the stable insertion sort is a permutation of the units into reading order |
| BeverageBandits.SinkInto | 15/src/main.rs:118-119 | one insertion step keeps the units and extends the sorted prefix by one, the prefix being the one InsertUnit gives |
| BeverageBandits.SortUnits | 15/src/main.rs:118-119 | sorting yields a permutation of the units in reading order of their positions, namely the stable sort StableSort |
| BeverageBandits.AliveOthers | 15/src/main.rs:129-137 | the listed units are exactly the live units (IsAlive, `is_alive` at 15/src/main.rs:234-236) other than the one taking its turn |
| BeverageBandits.OfSpecies | 15/src/main.rs:213-218 | the listed units are exactly those of the given species |
| BeverageBandits.InRangeEnemies | 15/src/main.rs:238-251 | the listed enemies are exactly those one step from the unit |
| BeverageBandits.ChooseTarget | 15/src/main.rs:169-175 | the target is an in-range enemy with the lowest health, and the first such in the list; none exactly when no enemy is in range |
| BeverageBandits.AttackPower | 15/src/main.rs:180-183 | goblins deal 3 and elves the given attack power |
| BeverageBandits.LiveHealthBounds | 15/src/main.rs:199-201 | the remaining hit points are never negative, and zero exactly when no unit is alive |
| BeverageBandits.Outcome | 15/src/main.rs:199-203 | the outcome is full rounds times remaining hit points, never negative and zero exactly when no round was completed or nobody is alive; an elf death gives 0 |
| BeverageBandits.NoEnemiesLeft | 15/src/main.rs:129-143 | a live unit that finds no live enemy among the others sees only its own species alive |
| BeverageBandits.MoveAlong | 15/src/main.rs:150-157 | the unit steps onto the first cell of the found path keeping its species and health, and no other unit changes; with no path nothing changes |
| BeverageBandits.Attack | 15/src/main.rs:177-183 | the target loses the attacker's species' attack power in health and no other unit changes |
| BeverageBandits.Strike | 15/src/main.rs:168-193 | the attack keeps the number of units, never ends the game for lack of enemies, and stops it only on a death the caller watches |
| BeverageBandits.Turn | 15/src/main.rs:121-193 | a turn keeps the number of units, ends the game only when the unit finds no enemy (and then one species is left), and stops it on an elf death only when deaths are watched |
| BeverageBandits.TakeTurn | 15/src/main.rs:121-193 | one pass of the turn loop is the turn `Turn` describes: a dead unit is skipped, no enemy ends the game, a unit with no enemy in range first steps along the path FindClosestEnemyPath picks, then strikes |
| BeverageBandits.RoundFrom | 15/src/main.rs:121-196 | the turns from the i-th on, then the later rounds: a finished game has one species left, as many units, and counts only the rounds completed before it, within the budget |
| BeverageBandits.GameFrom | 15/src/main.rs:115-197 | a game that finishes has one species left and counts only full rounds, within the budget; an elf death ends it only when deaths are watched |
| BeverageBandits.MainGame | 15/src/main.rs:105-204 | a finished game ends only when a unit finds no enemy left, so all live units then belong to one species; the rounds counted are the full ones; the game is cut short by an elf death only when elf deaths are watched; the result is the game `Game` describes, rounds of `Turn`s over the units in stable reading order |
| BeverageBandits.A | 15/src/main.rs:87-89 | part A plays with elf power 3, watching no deaths; its answer is the outcome of that game, never negative, or none when the round budget runs out |
| BeverageBandits.B | 15/src/main.rs:91-103 | part B answers the first elf power from 4 to 199 whose game gives a positive outcome, with that outcome; every weaker power's game ended within the budget with an outcome of at most 0 |
| Device.OpCodesComplete | 16/src/main.rs:29-34 | the opcode table lists sixteen distinct opcodes and every opcode appears in it |
| Device.BitAnd | 16/src/main.rs:178-183 | a bitwise and is never larger than either operand |
| Device.BitOr | 16/src/main.rs:184-189 | a bitwise or is never smaller than either operand |
| Device.MaskIsModulo | 16/src/main.rs:178-183 | and-ing with the mask 2^k - 1 keeps exactly the value modulo 2^k, which is what the 0xFF and 0xFFFFFF masks of the day 21 program rely on |
| Device.AndOrSum | 16/src/main.rs:178-189 | for any two values, and plus or equals their sum: each bit set in both is counted twice, each bit set in one is counted once |
| Device.Run | 16/src/main.rs:153-217 | running an opcode fails exactly when an operand names a register that does not exist; otherwise the result has as many registers, register C holds the opcode's value and every other register is unchanged |
| Device.ComputeShapes | 16/src/main.rs:190-213 | the six comparison opcodes write only 0 or 1, setr copies register A, seti writes the immediate A, the and forms never exceed register A and the or forms never fall below it |
| Device.RegisterImmediateAgree | 16/src/main.rs:166-212 | each register-register opcode behaves exactly as its register-immediate form when the immediate is the value held in register B |
| ChronalClassification.CountIsCardinality | 16/src/main.rs:88-96 | over distinct opcodes, the number of opcodes that explain a sample is the size of the set of opcodes whose run turns its before registers into its after registers |
| ChronalClassification.ValidCount | 16/src/main.rs:89-96 | the inner loop of part A counts how many of the sixteen opcodes explain the sample |
| ChronalClassification.A | 16/src/main.rs:85-104 | part A counts the samples that three or more opcodes explain |
| ChronalClassification.Retain | 16/src/main.rs:142 | removing an opcode from the candidates keeps every other candidate, drops that opcode, and keeps the candidates distinct |
| ChronalClassification.CountCandidates | 16/src/main.rs:126-138 | the candidate loop counts the remaining candidates that explain the sample and, when there is one, remembers a candidate that does explain it |
| ChronalClassification.AssignKeepsPartition | 16/src/main.rs:141-144 | fixing a candidate for an unknown number keeps every opcode either still a candidate or assigned, never both, with distinct numbers mapped to distinct opcodes |
| ChronalClassification.AssignKeepsExplained | 16/src/main.rs:141-144 | after the assignment every number still maps to an opcode that explains some sample carrying that number |
| ChronalClassification.DeriveOpMapping | 16/src/main.rs:119-150 | a finished deduction maps distinct numbers to distinct opcodes, gives every one of the sixteen opcodes a number, and each assignment is explained by a sample with that number |
| ChronalClassification.ExecAllAppend | 16/src/main.rs:110-114 | running two programs one after the other from some registers is the same as running their concatenation, a failure in the first one failing both |
| ChronalClassification.B | 16/src/main.rs:106-117 | part B returns the numbering its deduction built (injective, covering all sixteen opcodes, each assignment explained by a sample) and register 0 of the test program run from four zero registers under exactly that numbering; it answers nothing when the deduction runs out of passes or the run would panic |
| ReservoirResearch.ScanLeftCells | 17/src/shared.rs:86-113 | the leftward spread only passes over sand or falling water, and every cell from its last supported cell to the start has clay or settled water beneath it |
| ReservoirResearch.ScanRightCells | 17/src/shared.rs:115-142 | the same for the rightward spread |
| ReservoirResearch.FillRises | 17/src/shared.rs:76-153 | filling a ledge only wets sand or settles falling water: clay and settled water are never touched |
| ReservoirResearch.FillSettlesSupported | 17/src/shared.rs:144-150 | every cell that a ledge fill newly settles has clay or settled water beneath it |
| ReservoirResearch.FillActsChanges | 17/src/shared.rs:76-153 | `fill_ledge` answers true exactly when it changed the row |
| ReservoirResearch.LeftRunScans | 17/src/shared.rs:86-113 | the left loop, cell by cell, paints exactly the cells of the leftward spread and reports where it stopped and whether it met clay |
| ReservoirResearch.RightRunScans | 17/src/shared.rs:115-142 | the same for the right loop |
| ReservoirResearch.FillRunAgrees | 17/src/shared.rs:76-153 | the three loops of `fill_ledge` run in sequence leave the row the fill describes and answer whether sand got wet or the stretch settled |
| ReservoirResearch.FillLeft | 17/src/shared.rs:79-113 | the in-place left loop changes only its own row, as the left loop's run says |
| ReservoirResearch.FillRight | 17/src/shared.rs:115-142 | the in-place right loop changes only its own row, as the right loop's run says |
| ReservoirResearch.Settle | 17/src/shared.rs:144-150 | cells min_found..=max_found of the row become settled water, nothing else changes, and the fill has acted |
| ReservoirResearch.FillLedge | 17/src/shared.rs:76-153 | `fill_ledge` in place: the row becomes its fill over the row beneath, the other rows stay, and the answer is whether it acted |
| ReservoirResearch.StepRises | 17/src/shared.rs:26-50 | one cell of a tick only raises cells (sand to water, falling to settled) |
| ReservoirResearch.StepActs | 17/src/shared.rs:26-50 | one cell of a tick reports acting exactly when it changed the grid |
| ReservoirResearch.StepSupported | 17/src/shared.rs:26-50 | one cell of a tick keeps settled water resting on clay or settled water |
| ReservoirResearch.TickSettles | 17/src/shared.rs:18-56 | a whole tick only raises cells, keeps settled water supported, and reports acting exactly when the grid changed, so the repeat loop stops at a fixed point |
| ReservoirResearch.TickKeepsClay | 17/src/shared.rs:42-44 | a tick leaves clay exactly where it was |
| ReservoirResearch.TickPours | 17/src/shared.rs:29-45 | falling water above sand makes the cell beneath wet within the same tick, and the tick acts |
| ReservoirResearch.TickCell | 17/src/shared.rs:26-50 | the in-place body of the tick loop at one cell does what one step describes |
| ReservoirResearch.TickColumn | 17/src/shared.rs:25-52 | the inner loop walks a column top to bottom, each cell seeing the changes above it |
| ReservoirResearch.TickGround | 17/src/shared.rs:18-56 | `tick` in place: columns left to right, the answer is whether any cell acted |
| ReservoirResearch.RowCounts | 17/src/shared.rs:62-71 | a row's wet count is its falling plus its settled cells, and its locked count its settled cells |
| ReservoirResearch.LockedAtMostWet | 17/src/shared.rs:58-74 | the second count of `count_water` never exceeds the first |
| ReservoirResearch.RiseKeepsWater | 17/src/shared.rs:58-74 | when every cell rises, neither count goes down |
| ReservoirResearch.TickKeepsWater | 17/src/shared.rs:18-74 | a tick never lowers either count |
| ReservoirResearch.CountWater | 17/src/shared.rs:58-74 | `count_water` returns the wet and settled counts of the whole grid |
| ReservoirResearch.BoundsCover | 17/src/shared.rs:157-191 | the running min and max of the scan lines enclose every clay cell |
| ReservoirResearch.ClayPadded | 17/src/shared.rs:193-198 | clay never lies in the spare column at either side, and lies within the rows of the grid |
| ReservoirResearch.LayVein | 17/src/shared.rs:203-228 | laying one scan line sets exactly its inclusive rectangle to clay and leaves every other cell |
| ReservoirResearch.ParseInput | 17/src/shared.rs:155-236 | the grid spans the padded bounds and holds falling water at (500, top clay row), clay on every vein cell, sand elsewhere |
| SettlersOfTheNorthPole.TallyKinds | 18/src/shared.rs:43-66 | the open, tree and lumberyard counts of a block together are the number of its cells that are neighbours inside the area |
| SettlersOfTheNorthPole.AdjacentTotal | 18/src/shared.rs:43-66 | an acre has at most eight neighbours counted, and exactly eight when it is off the border |
| SettlersOfTheNorthPole.NoneAdjacent | 18/src/shared.rs:48-53 | a position more than one step off the area, where both loops run zero times, has no neighbour of any kind |
| SettlersOfTheNorthPole.CountAdjacent | 18/src/shared.rs:43-66 | `count_adjacent` returns, per kind, the acres of that kind among the up to eight neighbours inside the area, never counting the acre itself |
| SettlersOfTheNorthPole.CountRow | 18/src/shared.rs:54-62 | one pass of the column loop extends the counts from block row r to block row r + 1 |
| SettlersOfTheNorthPole.CountCell | 18/src/shared.rs:55-61 | one cell of the scan is counted by its kind exactly when it is a neighbour, skipped when it is the acre itself |
| SettlersOfTheNorthPole.NextAt | 18/src/shared.rs:12-41 | every acre of the next area is the rule applied to the same acre and its neighbour counts in the area before |
| SettlersOfTheNorthPole.NextRules | 18/src/shared.rs:17-35 | open ground becomes trees exactly with three or more trees around and never a lumberyard; trees become a lumberyard exactly with three or more lumberyards around and never open; a lumberyard stays exactly with at least one lumberyard and one tree around and otherwise turns open |
| SettlersOfTheNorthPole.TreelessClears | 18/src/shared.rs:17-35 | an area without trees has neither trees nor lumberyards one minute later |
| SettlersOfTheNorthPole.NextLumberyard | 18/src/shared.rs:12-41 | the written area holds the next state of the area read, acre by acre, and the area read is untouched |
| SettlersOfTheNorthPole.ParseSymbol | 18/src/shared.rs:72-77 | each acre's character reads back as that acre, and only that character reads as it |
| SettlersOfTheNorthPole.ParseLines | 18/src/shared.rs:69-80 | reading succeeds exactly when every character of every line is one of the three, and then gives each acre as its character reads |
| SettlersOfTheNorthPole.ParseInput | 18/src/shared.rs:68-91 | a fresh area at offset 0, as wide as the first line and as tall as the input, holding each character's acre; none exactly when a character is foreign, the input is empty or a line is shorter than the first |
| SettlersOfTheNorthPole.RowCountIsMultiplicity | 18/src/main.rs:128-142 | the count of a kind in a row is its multiplicity among the row's acres |
| SettlersOfTheNorthPole.CountNone | 18/src/main.rs:128-142 | a kind counts zero exactly when no acre of the area is of that kind |
| SettlersOfTheNorthPole.GetAreaScore | 18/src/main.rs:128-142 | `get_area_score` is the number of trees times the number of lumberyards over the whole area |
| SettlersOfTheNorthPole.IterateAdd | 18/src/main.rs:64-67 | m minutes followed by n more minutes is m + n minutes, which lets `run_lumber` hand the minutes left to `run_cycle_lumber` |
| SettlersOfTheNorthPole.IterateCycle | 18/src/main.rs:74-120 | once the area returns to itself after p minutes, the area after n minutes is the one after n mod p |
| SettlersOfTheNorthPole.TreelessWorthless | 18/src/main.rs:128-142 | an area without trees stays treeless and scores zero after any number of minutes |
| SettlersOfTheNorthPole.Flip | 18/src/main.rs:58 | `!i & ONE_MASK` on buffer index 0 or 1 is the other index |
| SettlersOfTheNorthPole.KeepCycle | 18/src/main.rs:78-107 | the kept areas are those of the first minutes in order, the index left shows the minute reached, and when minutes remain the kept areas are one whole cycle back to the start |
| SettlersOfTheNorthPole.WalkCycle | 18/src/main.rs:109-117 | walking the index around a cycle of kept areas one minute at a time ends on the area of the last minute |
| SettlersOfTheNorthPole.RunCycleLumber | 18/src/main.rs:74-120 | `run_cycle_lumber` scores the area `minutes` minutes on, with or without a cycle |
| SettlersOfTheNorthPole.Turn | 18/src/main.rs:56-60 | one minute of `run_lumber` writes the other buffer with the area one minute on |
| SettlersOfTheNorthPole.Resume | 18/src/main.rs:63-67 | handing the minutes left to `run_cycle_lumber` after a repeat still scores the area `minutes` on |
| SettlersOfTheNorthPole.RunLumber | 18/src/main.rs:44-72 | `run_lumber` scores the area `minutes` minutes on, whether or not a repeated area cuts the stepping short |
| SettlersOfTheNorthPole.A | 18/src/main.rs:36-38 | part one is the score after 10 minutes |
| SettlersOfTheNorthPole.B | 18/src/main.rs:40-42 | part two is the score after 1000000000 minutes |
| Device.FindByName | 19/src/main.rs:60-65 | the name lookup returns one of the opcodes searched, and falls back to `addr` when no opcode has that name |
| Device.ParseOpCode | 19/src/main.rs:51-65 | an unknown opcode name parses as `addr` |
| Device.FindByNameFinds | 19/src/main.rs:60-65 | among opcodes with distinct names, the lookup finds the opcode that carries the name |
| Device.NameRoundTrip | 19/src/main.rs:203-207 | printing an opcode's lower-case name and looking it up again gives back the same opcode |
| Device.ExecHalted | 19/src/main.rs:112-133 | a program that halts leaves as many registers as it started with, and the ip register one below the first address past the program |
| Device.ExecFuelMonotone | 19/src/main.rs:117-128 | a run that ended within some number of steps ends the same way when allowed more steps |
| Device.Advance | 19/src/main.rs:118-127 | one pass of the loop runs the instruction the ip register points at and advances that register; a run with steps left goes on from the result exactly as Exec does, and an instruction naming a missing register faults |
| Device.RunProgram | 19/src/main.rs:112-133 | the instruction-pointer loop halts, faults or runs out of steps exactly as the run defined by Exec does from the given registers; the copy at 21/src/main.rs:132-158 is the same code: the same instruction-pointer loop as day 19, whose print of register 3 at address 29 is output only |
| GoWithTheFlow.A | 19/src/main.rs:91-93 | part A succeeds exactly when the program halts from six zero registers, and then returns register 0 of the halted state |
| GoWithTheFlow.SampleReturnsSix | 19/src/main.rs:82-84 | the sample program halts after five instructions with 6 in register 0 |
| GoWithTheFlow.DivisorSumBounds | 19/src/main.rs:95-110 | the divisor sum up to k never exceeds 1 + 2 + ... + k, is at least 1 for n >= 1, and includes both 1 and n once k reaches n |
| GoWithTheFlow.SumDivisors | 19/src/main.rs:99-107 | the loop adds up exactly the divisors of `two` between 1 and `two` |
| GoWithTheFlow.B | 19/src/main.rs:95-110 | part B is the sum of all divisors of 10551354, which is more than the number itself |
| RegularMap.LetterNames | 20/src/shared.rs:254-273 | a direction's letter parses back to that direction, and the only character that parses to a direction is its letter |
| RegularMap.ParseStatic | 20/src/shared.rs:254-273 | `parse_static` consumes the longest run of direction letters from the position: the directions read are the run's letters in order, and it stops at the end of the text or at the first character that is not a direction |
| RegularMap.ParsePrint | 20/src/shared.rs:192-252 | for every path the parser can produce (runs non-empty, groups of two or more alternatives, no two runs in a row), `parse_path` on its display text followed by a terminator returns that same path and stops right after the text |
| RegularMap.PrintParse | 20/src/shared.rs:140-146 | `parse_input` on `^`, the display of a path and a terminator returns the path, so displaying the parse reproduces the text between `^` and the terminator |
| RegularMap.Chars.Peek | 20/src/shared.rs:196 | `peek` yields a character exactly when the text has not run out, and then yields the next one |
| RegularMap.Chars.Next | 20/src/shared.rs:220 | `next` returns what `peek` would have and advances by one, and past the end leaves the position where it was |
| RegularMap.ReadStatic | 20/src/shared.rs:254-273 | the loop over the peekable iterator returns exactly the run `ParseStatic` describes and leaves the iterator right after it |
| RegularMap.ReadPath | 20/src/shared.rs:192-213 | the segment loop returns the path `ParsePath` describes and leaves the iterator where it stops, or fails exactly where the text runs out under `peek().unwrap()` |
| RegularMap.ReadBranch | 20/src/shared.rs:215-252 | the alternative loop returns the group `ParseBranch` describes, consuming the closing character, or fails exactly where the text runs out |
| RegularMap.ReadInput | 20/src/shared.rs:140-146 | skipping the first character and reading a path agrees with `ParseInput` on every text |
| RegularMap.WalkSplits | 20/src/shared.rs:53-68 | what a path carves from a set of starting rooms is the union of what it carves from each, which is why the segment loop may visit the current rooms in any order and merge the results |
| RegularMap.WalkParity | 20/src/shared.rs:101-123 | from rooms on even offsets of the centre every room a path reaches is on even offsets and every door on a mixed offset, so no door is ever painted over a room |
| RegularMap.RunEnd | 20/src/shared.rs:100-123 | a run ends in exactly one room, the start moved by its steps, at most two cells per direction from the start |
| RegularMap.ReachCoversDistance | 20/src/shared.rs:70-136 | the corrected size, the furthest a path's runs ever get from their start, is at least the net displacement `max_distance` uses, in both axes |
| RegularMap.WalkInBox | 20/src/shared.rs:70-96 | from starts inside a box, every room, door and end of a path stays inside the box widened by twice its corrected reach in each axis (two cells per step): sizes add along segments and take the maximum over alternatives |
| RegularMap.ReachFits | 20/src/shared.rs:148-164 | with the grid sized by the corrected reach, every room and door the path carves from the centre has both diagonal neighbours on the grid, so no `set_loci` falls outside it |
| RegularMap.DistanceOverflows | 20/src/shared.rs:125-136 | with `max_distance` as written, the run NNNSSS is sized (0, 0), the grid is 8 by 8 around (4, 4), and its door at (4, -1) lies outside the grid |
| RegularMap.PaintTwice | 20/src/shared.rs:53-88 | painting one walk after another gives the same cells as painting their union, provided both keep rooms and doors on their own parities |
| RegularMap.BuildRun | 20/src/shared.rs:101-123 | each step paints the door and then the room it reaches; afterwards every cell of the grid is a room if the run visits it, a door if it passes through it, and unchanged otherwise, and the run's end is returned |
| RegularMap.BuildPath | 20/src/shared.rs:34 | `build_map` from one room paints exactly what the path carves over the old grid and returns the rooms it can end in |
| RegularMap.BuildBranch | 20/src/shared.rs:80-88 | every alternative is built from the same start; the grid ends up painted with the union of their walks and the ends are the union of their ends |
| RegularMap.BuildSegments | 20/src/shared.rs:53-68 | each segment is built from every room the previous ones can end in; the grid ends up painted with the whole walk and the ends are those of the last segment |
| RegularMap.BuildFromEach | 20/src/shared.rs:58-62 | building a path from every room of a set, in whatever order the set is visited, paints the walk from the whole set and returns all its ends |
| RegularMap.Bounds | 20/src/shared.rs:167-175 | the scan returns a box holding every cell that is not a wall, and when it found one, each side of the box touches such a cell |
| RegularMap.PruneMap | 20/src/shared.rs:166-190 | the pruned grid runs from one cell before the smallest carved coordinate to two after the largest, keeps the old grid's cell everywhere, and the box it pads is the tightest one around the carved cells |
| RegularMap.Reframe | 20/src/shared.rs:181-187 | the new grid spans exactly the requested corners and every cell equals the old grid's at the same coordinates |
| RegularMap.CopyCells | 20/src/shared.rs:183-187 | after the copy loops, every cell of the new grid holds the old grid's value at the same coordinates |
| RegularMap.BuildFull | 20/src/shared.rs:148-161 | corrected (sized by the furthest reach, where the source uses `max_distance`): the full grid is twice the centre in each axis, and every cell holds what the walk from the centre paints over a wall (over a room at the centre) |
| RegularMap.CarvedInterior | 20/src/shared.rs:148-164 | corrected (of the grid sized by the furthest reach): on the full grid every carved cell has both diagonal neighbours on the grid, and the centre is carved |
| RegularMap.KeptAfterPruning | 20/src/shared.rs:163-190 | pruning keeps the centre and every room and door of the walk on the grid, with the same painting, and keeps a wall border around the carved cells |
| RegularMap.BuildMap | 20/src/shared.rs:148-164 | corrected (sized by the furthest reach, where the source uses `max_distance`): `build_map` returns the centre and a grid that holds every room and door of the path, each painted as the walk from the centre paints it, with the rest walls, and with a border around every carved cell |
| RegularMap.Glyph | 20/src/shared.rs:317-326 | a wall displays as `#`, and a room or a door as a space |
| ChronalConversion.A | 21/src/main.rs:85-87 | part A succeeds exactly when the program halts with 11474091 in register 0, and then returns register 0 of the halted state |
| ChronalConversion.Mix | 21/src/main.rs:109-121 | the inner loop always leaves a 24-bit value |
| ChronalConversion.Produce | 21/src/main.rs:106-121 | one pass of the outer loop, written with bitwise masks, produces exactly the next value of the arithmetic recurrence, a 24-bit value |
| ChronalConversion.OrbitExtend | 21/src/main.rs:123-128 | appending the next value of the recurrence that has not been seen keeps the produced values the recurrence's first values, all distinct |
| ChronalConversion.Advance | 21/src/main.rs:123-128 | a new value joins both the seen set and the produced values and becomes the last value |
| ChronalConversion.B | 21/src/main.rs:89-130 | part B returns a 24-bit value that is the last of a run of distinct values of the recurrence from 0, and whose successor was already produced |
| ModeMaze.ExactlyTwoTools | 22/src/main.rs:353-376 | each region type accepts exactly two of the three tools, each tool is accepted by exactly two region types, and the torch is accepted everywhere except on wet ground |
| ModeMaze.RiskLevel | 22/src/main.rs:331-337 | the risk is at most 2, zero exactly on rocky ground and 2 exactly on narrow ground |
| ModeMaze.BuildCave | 22/src/main.rs:289-328 | the generated cave has side min(dim, 150) by min(dim, 900), and every one of its regions is the region the geologic-index rules define for its coordinates, although the loop reads the left and upper neighbours from the grid instead of recomputing them |
| ModeMaze.ComputeRegion | 22/src/main.rs:298-323 | with every region to the left in its row and every region of the rows above already correct, the region computed for (x, y) from its left and upper neighbours is the one the geologic-index rules define |
| ModeMaze.A | 22/src/main.rs:95-105 | part A sums the risk levels of every region in the rectangle from the mouth to the target, both inclusive |
| ModeMaze.CmpEntryIdentity | 22/src/main.rs:118-138 | two path scores compare equal exactly when location and tool agree, whatever their minutes, and the comparison is antisymmetric |
| ModeMaze.HeuristicConsistent | 22/src/main.rs:161-168 | the estimate (distance to the goal, plus 7 while holding the climbing gear) drops by at most the cost of any legal step |
| ModeMaze.Moves | 22/src/main.rs:229-245 | the moves are exactly the on-grid neighbours that accept the held tool, each one minute later |
| ModeMaze.ToolChanges | 22/src/main.rs:248-259 | the tool changes are exactly the other tools the current region accepts, each in place and seven minutes later |
| ModeMaze.Candidates | 22/src/main.rs:229-261 | every candidate is a legal step priced at its cost, one minute for a move and seven for a switch |
| ModeMaze.CandidatesComplete | 22/src/main.rs:229-261 | every legal step from the current state is among the candidates |
| ModeMaze.Find | 22/src/main.rs:270 | the search of the open set returns the first entry holding the state, and nothing exactly when the state is not open |
| ModeMaze.Relax | 22/src/main.rs:263-282 | a closed candidate changes nothing; otherwise its state becomes open with at most the candidate's minutes, an open entry with no more minutes is kept, and no state is ever open twice |
| ModeMaze.PopMin | 22/src/main.rs:195 | the popped entry has the least minutes-plus-estimate in the open set, the first such one on ties |
| ModeMaze.ExtendWalk | 22/src/main.rs:229-261 | a legal walk from the start extended by a legal step is a legal walk whose cost grows by that step's cost |
| ModeMaze.WalksStayClosed | 22/src/main.rs:285-286 | when the search runs out of open states, the closed states contain the end of every legal walk from the start |
| ModeMaze.RemoveAt | 22/src/main.rs:195 | popping an entry takes exactly its state out of the open set, leaving the others open once each |
| ModeMaze.RelaxWitnessed | 22/src/main.rs:263-282 | after a relaxation every open entry still carries a legal walk from the start that takes exactly its minutes |
| ModeMaze.Expand | 22/src/main.rs:226-282 | after expanding the current state every legal successor is closed or open, nothing but its successors joins the open set, and every open entry is witnessed by a legal walk |
| ModeMaze.RelaxImproves | 22/src/main.rs:263-282 | a relaxation never raises the minutes of an open state, and a candidate that is not closed ends up open within its own minutes |
| ModeMaze.Frontier | 22/src/main.rs:185-287 | under the search invariant, every legal walk from the start to a state that is not closed passes an open entry whose minutes plus estimate are at most the walk's cost plus the estimate at its end |
| ModeMaze.PopFirst | 22/src/main.rs:195 | the popped entry of least priority takes no longer, estimate included, than any legal walk to a state that is not closed |
| ModeMaze.CloseKeeps | 22/src/main.rs:195-226 | closing the popped entry records its least time: no legal walk reaches its state in fewer minutes, and the states closed before stay bounded in the open set |
| ModeMaze.ExpandKeeps | 22/src/main.rs:226-282 | after expanding the closed state, every legal successor of a closed state is closed or open within the closing time plus the step's cost |
| ModeMaze.ArrivalBound | 22/src/main.rs:200-223 | the answer given at the goal exceeds the cost plus final switch of a no cheaper walk by at most 7, and only when the popped state holds neither tool, which a rocky goal rules out |
| ModeMaze.Arrive | 22/src/main.rs:195-223 | popping an entry of least priority at the goal answers within the slack of every legal walk from the start to the goal |
| ModeMaze.FindShortestPath | 22/src/main.rs:147-287 | a returned time is the cost of a legal walk from the mouth with the torch to the target plus the switch back to the torch; it is at most every such walk's cost plus its final switch plus 7, and at most that cost itself when the target is rocky, so it is the least time there; no time is returned only when no legal walk reaches the target |
| ExperimentalEmergencyTeleportation.DistanceMetric | 23/src/main.rs:282-286 | `Coordinate::distance` is a metric: symmetric, zero exactly between equal points, and obeying the triangle inequality |
| ExperimentalEmergencyTeleportation.StrongestIsFirstLargest | 23/src/main.rs:82-91 | over bots whose radii exceed `i64::min_value()`, the bot the first loop of `a` keeps has the largest radius, and every bot before it a strictly smaller one (a later bot of equal radius does not replace it) |
| ExperimentalEmergencyTeleportation.A | 23/src/main.rs:82-101 | `a` counts the bots within the radius of the bot the first loop keeps, measured from that bot's position |
| ExperimentalEmergencyTeleportation.StrongestCountsItself | 23/src/main.rs:93-98 | a bot of non-negative radius is always in its own range, so `a` counts at least one bot |
| ExperimentalEmergencyTeleportation.SampleA | 23/src/main.rs:73-74 | on the puzzle's example the strongest bot is the one at the origin with radius 4, and seven bots are in its range, the value `a` is asserted to give |
| ExperimentalEmergencyTeleportation.SplitRangePartition | 23/src/main.rs:257-270 | the two halves of a range meet at `mid`, add up to its width, never overlap and together hold exactly its coordinates; a range of width 2 or more has both halves narrower, one of width 1 splits into an empty half and itself |
| ExperimentalEmergencyTeleportation.NonEmptyHolds | 23/src/main.rs:148-149 | a region holds a point only when none of its ranges is empty, then it holds its lower corner, and a region of width 1 on every axis holds exactly its lower corner |
| ExperimentalEmergencyTeleportation.ChildrenMembers | 23/src/main.rs:170-195 | `Region::split` yields at most eight regions, and a region is among them exactly when each of its ranges is a half of the parent's range that is not of width 0 |
| ExperimentalEmergencyTeleportation.ChildrenCover | 23/src/main.rs:170-195 | every region `split` yields is non-empty and inside its parent, and every point of the parent lies in one of them |
| ExperimentalEmergencyTeleportation.FlatChildren | 23/src/main.rs:172-175 | a region whose x range has width 0 splits into nothing |
| ExperimentalEmergencyTeleportation.ChildrenAlongX | 23/src/main.rs:170-195 | a region at least 2 wide in x and 1 wide in y and z splits into its two x halves, lower half first |
| ExperimentalEmergencyTeleportation.SplitRegion | 23/src/main.rs:170-195 | the three nested loops of `split`, skipping halves of width 0, push exactly the children `ChildrenMembers` describes, in loop order |
| ExperimentalEmergencyTeleportation.SplitSlab | 23/src/main.rs:176-191 | the y and z loops for one x half push the regions of that slab in loop order |
| ExperimentalEmergencyTeleportation.SplitRow | 23/src/main.rs:180-190 | the z loop for one x and y half pushes the regions of that row, skipping a z half of width 0 |
| ExperimentalEmergencyTeleportation.CountPotential | 23/src/main.rs:197-213 | the loop of `potential_bots` counts the bots whose radius plus the tolerance reaches the centre |
| ExperimentalEmergencyTeleportation.CenterNear | 23/src/main.rs:198-203 | every point of a region is within the tolerance of its centre, so the extra room the comment promises is enough |
| ExperimentalEmergencyTeleportation.PotentialBotsBound | 23/src/main.rs:197-213 | the score of a region is an upper bound on the bots in range of any of its points |
| ExperimentalEmergencyTeleportation.UnitExact | 23/src/main.rs:197-213 | on a region of a single coordinate the score counts exactly the bots in range of that coordinate |
| ExperimentalEmergencyTeleportation.CornerGaps | 23/src/main.rs:215-230 | the distance `zero_distance` measures for corner `c` is the distance from the origin of the `c`-th corner in loop order |
| ExperimentalEmergencyTeleportation.ZeroDistanceNearestCorner | 23/src/main.rs:215-230 | `zero_distance` is no more than the distance from the origin of any of the eight corners and, unless it stays at `i64::max_value()`, equals one of them |
| ExperimentalEmergencyTeleportation.PositiveZeroDistance | 23/src/main.rs:215-230 | for a region on the positive side of every axis `zero_distance` is the distance of its lower corner |
| ExperimentalEmergencyTeleportation.CornerDistance | 23/src/main.rs:215-230 | the three nested loops of `zero_distance` compute the smallest corner distance, starting from `i64::max_value()` |
| ExperimentalEmergencyTeleportation.ScoresTotalOrder | 23/src/main.rs:241-248 | `RegionScore::cmp` is a total order consistent with equality, and one score is greater exactly when it has more potential bots, or as many and a larger zero distance |
| ExperimentalEmergencyTeleportation.NearDistanceBound | 23/src/main.rs:215-230 | the corrected ranking's distance is a lower bound on the distance from the origin of every point of the region, exact on a single coordinate |
| ExperimentalEmergencyTeleportation.RankRegion | 23/src/main.rs:130-133 | the score pushed with a region is its potential bots and its zero distance |
| ExperimentalEmergencyTeleportation.BestIndex | 23/src/main.rs:146 | `pop` takes an entry no other entry ranks above, and every entry before it ranks below it |
| ExperimentalEmergencyTeleportation.PopBest | 23/src/main.rs:146 | the scan for the best entry returns the entry `pop` takes |
| ExperimentalEmergencyTeleportation.PushAllMembers | 23/src/main.rs:152-157 | after pushing, a region is queued exactly when it was queued before or was pushed |
| ExperimentalEmergencyTeleportation.ChildrenSmaller | 23/src/main.rs:170-195 | a region that is not a single coordinate splits into at most eight regions, each smaller than it |
| ExperimentalEmergencyTeleportation.Expand | 23/src/main.rs:146-157 | replacing the popped region by its children keeps every queued region well-formed and lowers the queue's weight, so the loop of `find_closest` ends |
| ExperimentalEmergencyTeleportation.SearchSplitsLone | 23/src/main.rs:146-157 | from a queue of one region that is not a single coordinate, the search goes on with that region's children |
| ExperimentalEmergencyTeleportation.SearchPopsSecond | 23/src/main.rs:146-149 | of two queued regions, the search answers the second when it is a single coordinate and ranks first |
| ExperimentalEmergencyTeleportation.TieGoesFarther | 23/src/main.rs:241-248 | of two regions with the same potential bots, the queue pops the one whose nearest corner is further from the origin first |
| ExperimentalEmergencyTeleportation.SearchOptimal | 23/src/main.rs:135-160 | from a queue that covers a region and lies inside it, the search answers None only when the region holds no point, and otherwise a point of it in range of as many bots as any of its points |
| ExperimentalEmergencyTeleportation.ClosestOptimal | 23/src/main.rs:128-161 | `find_closest` answers exactly when the region holds a point, and then with a point of it in range of the most bots; with the corrected ranking also the closest to the origin among those |
| ExperimentalEmergencyTeleportation.FindClosest | 23/src/main.rs:128-161 | the queue loop of `find_closest` returns what the search from the whole region answers |
| ExperimentalEmergencyTeleportation.PushChildren | 23/src/main.rs:152-157 | the push loop queues each child not already queued, with its score, so the scores stay those of the queued regions |
| ExperimentalEmergencyTeleportation.RemoveScore | 23/src/main.rs:146 | popping an entry removes its score and keeps the others with their regions |
| ExperimentalEmergencyTeleportation.BoxWellFormed | 23/src/main.rs:103-123 | with at least one bot the box of `b` is well-formed and every bot's position lies between its lower and upper bounds on each axis |
| ExperimentalEmergencyTeleportation.BoundingBox | 23/src/main.rs:104-115 | the min/max loop of `b` computes the smallest and largest coordinate on each axis, from `i64::max_value()` and `i64::min_value()` |
| ExperimentalEmergencyTeleportation.B | 23/src/main.rs:103-126 | `b` answers the distance from the origin of the point `find_closest` returns over the box, and None where the source panics |
| ExperimentalEmergencyTeleportation.AnswerOf | 23/src/main.rs:125 | `b` answers the distance from the origin of the point `find_closest` returns |
| ExperimentalEmergencyTeleportation.ClosestFixedOptimal | 23/src/main.rs:103-161 | with at least one bot the corrected search always answers, with a point of the box (its largest coordinates included) in range of the most bots and closest to the origin among those, and that box holds every bot |
| ExperimentalEmergencyTeleportation.ClosestFixedReachesAll | 23/src/main.rs:103-161 | when some point of the box is in range of every bot, the corrected search answers a point in range of every bot that is no further from the origin |
| ExperimentalEmergencyTeleportation.BFixed | 23/src/main.rs:103-126 | `b` over the box with the largest coordinates included and the corrected ranking answers the corrected search's distance |
| ExperimentalEmergencyTeleportation.LoneBotNotFound | 23/src/main.rs:117-125 | for a single bot at (1, 2, 3) the box is empty on every axis and `find_closest` answers None, where `b` panics; the corrected search answers (1, 2, 3) |
| ExperimentalEmergencyTeleportation.PairFartherFirst | 23/src/main.rs:241-248 | for bots at the origin and at (2, 1, 1), both of radius 5, `b` answers 1 although the origin is in the box and in range of both bots; the corrected search answers the origin |
| ImmuneSystemSimulator.DamageBounds | 24/src/main.rs:281-293 | a group's damage is between none and twice its effective power; a group with effective power hurts a target exactly when the target is not immune to its attack type, and doubles it when the target is weak and not immune |
| ImmuneSystemSimulator.UnitsLostBounds | 24/src/main.rs:295-297 | a group loses between none and all of its units; the lost units cost no more hit points than the damage, and unless the whole group dies the damage falls short of one more unit |
| ImmuneSystemSimulator.CompareDescending | 24/src/main.rs:352-371 | both sort comparators are descending: `Less` exactly when the first group has more effective power (or as much and a higher initiative) for targeting, a higher initiative for attacking; `Greater` the converse; `Equal` exactly on equal keys |
| ImmuneSystemSimulator.SortByOrdered | 24/src/main.rs:181-198 | each of the two sorts yields a permutation of the groups (same multiset, same total of units) in which no group outranks one before it |
| ImmuneSystemSimulator.InsertPermutes | 24/src/main.rs:181-183 | placing a group into a sorted list adds exactly that group and its units |
| ImmuneSystemSimulator.PickBest | 24/src/main.rs:314-350 | the target search finds nothing exactly when no other untaken enemy takes damage from the selector; otherwise it finds such an enemy that beats every earlier candidate (more damage, or as much and higher effective power then initiative) and that no later candidate beats: the first of the best |
| ImmuneSystemSimulator.PickIgnoresTargets | 24/src/main.rs:318-345 | the target search reads nothing of the groups' current targets, so targets set earlier in the round do not affect later selectors |
| ImmuneSystemSimulator.ChoiceIsBest | 24/src/main.rs:185-191 | in the selection loop each group picks, against what the groups before it took, the first best eligible enemy, or nothing when none is eligible |
| ImmuneSystemSimulator.ChoicesAreEnemies | 24/src/main.rs:185-191 | every choice of the selection loop is an index of the list and names a group of the other army |
| ImmuneSystemSimulator.TakenDistinct | 24/src/main.rs:185-191 | the `taken` list never holds the same group twice, so no group is chosen by two attackers in a round |
| ImmuneSystemSimulator.SelectResolves | 24/src/main.rs:185-191 | the selection phase changes only targets, and afterwards every target is the id of a present enemy group |
| ImmuneSystemSimulator.LocateFinds | 24/src/main.rs:299-312 | when a matching enemy group exists at or after `k`, the search from `k` finds the first one |
| ImmuneSystemSimulator.Located | 24/src/main.rs:299-312 | a target that resolves is always found, so the panic of `find_target_index` cannot happen |
| ImmuneSystemSimulator.StrikeKills | 24/src/main.rs:202-218 | one attack lowers at most one group's units, never below zero, keeps every group sound, and the units it kills are exactly what the total loses |
| ImmuneSystemSimulator.AttackUpTo | 24/src/main.rs:200-219 | after any prefix of the attack loop only units have changed, all groups are sound, and the killed count plus the remaining units equal the units before the loop |
| ImmuneSystemSimulator.OrderedReady | 24/src/main.rs:180-198 | after sorting, selecting and re-sorting, the groups are still sound, keep their total of units, and every target resolves |
| ImmuneSystemSimulator.PermutationKeeps | 24/src/main.rs:181-198 | reordering the groups keeps them sound, keeps the army and id roster, and keeps every target resolvable |
| ImmuneSystemSimulator.SurvivorsAlive | 24/src/main.rs:226-230 | removing the dead keeps exactly the groups with units left, and the total of units is unchanged |
| ImmuneSystemSimulator.FightEnds | 24/src/main.rs:176-241 | a fight that ends (is no stalemate) leaves only groups with units, all of one army, and fewer units than it started with |
| ImmuneSystemSimulator.Boosted | 24/src/main.rs:162-172 | boosting keeps the number of groups and, for a non-negative boost, their soundness |
| ImmuneSystemSimulator.BoostOnlyImmune | 24/src/main.rs:162-172 | the boost adds itself to every immune group's attack damage and changes nothing else |
| ImmuneSystemSimulator.RunReports | 24/src/main.rs:243-249 | `run` reports units that are not negative; an immune win comes with units left; when the fight ends the units are those of the survivors, all of the reported army |
| ImmuneSystemSimulator.OneArmyStalls | 24/src/main.rs:174-224 | with groups of one army only, nobody has a target, the first round kills nobody, and `run` reports a stalemate `(Infection, 0)`, even when every group is immune |
| ImmuneSystemSimulator.FirstWinIsFirst | 24/src/main.rs:147-159 | the boost search answers the smallest boost from 1 on that wins, and nothing only when no boost up to the limit wins |
| ImmuneSystemSimulator.FirstWinStable | 24/src/main.rs:147-159 | searching further never changes a boost already found |
| ImmuneSystemSimulator.AnswerBFirst | 24/src/main.rs:147-159 | `b` answers nothing exactly when no boost from 1 to the limit lets the immune system win, and otherwise the units of the immune system with the smallest winning boost |
| ImmuneSystemSimulator.FuelKeepsAnswer | 24/src/main.rs:147-159 | raising the search limit never changes an answer of `b` once found |
| ImmuneSystemSimulator.SetTarget | 24/src/main.rs:314-350 | the loop of `set_target` (its best damage starting at `isize::min_value()`) returns the first-of-best candidate of the specification search and sets the group's target to that candidate's id |
| ImmuneSystemSimulator.SelectTargets | 24/src/main.rs:185-191 | the selection loop, growing `taken`, yields exactly the specified selection |
| ImmuneSystemSimulator.FindTargetIndex | 24/src/main.rs:299-312 | `find_target_index` returns nothing for a group without a target and otherwise the index of the first enemy group with the target's id |
| ImmuneSystemSimulator.AttackWith | 24/src/main.rs:202-218 | one pass of the attack loop performs the specified attack |
| ImmuneSystemSimulator.AttackAll | 24/src/main.rs:200-219 | the attack loop yields the specified groups and units killed |
| ImmuneSystemSimulator.CheckArmies | 24/src/main.rs:232-240 | the exit check sets each flag exactly when a group of that army remains |
| ImmuneSystemSimulator.RunBattle | 24/src/main.rs:161-250 | the loop of `run` returns the winner and units of the specified fight, stalemate included |
| ImmuneSystemSimulator.A | 24/src/main.rs:143-145 | `a` is the units `run` reports with no boost |
| ImmuneSystemSimulator.TryBoost | 24/src/main.rs:150-158 | one step of `b`: when the boost wins, its units are `b`'s answer; otherwise no boost up to this one wins |
| ImmuneSystemSimulator.B | 24/src/main.rs:147-159 | `b`'s loop answers the specified smallest-winning-boost result |
| FourDimensionalAdventure.DistanceSymmetric | 25/src/main.rs:97-99 | the four-dimensional Manhattan distance does not depend on the order of its arguments |
| FourDimensionalAdventure.DistanceZero | 25/src/main.rs:97-99 | the distance is zero exactly between equal coordinates, so every point is near itself |
| FourDimensionalAdventure.FoundExact | 25/src/main.rs:58-68 | the `found` list is strictly increasing, and a constellation index is in it exactly when some point of that constellation is at most 3 from the new point: each touched constellation is listed once, however many of its points are near |
| FourDimensionalAdventure.FindTouching | 25/src/main.rs:58-68 | the nested search loops, with their early `break`, produce exactly the `found` list of FoundExact |
| FourDimensionalAdventure.MergeInto | 25/src/main.rs:70-79 | the first touched constellation ends up holding its own points, then the new point, then the points of the other touched constellations in `found` order |
| FourDimensionalAdventure.DropMerged | 25/src/main.rs:81-84 | removing the other touched constellations from the last index down removes exactly those entries, each `remove` index still pointing at the intended constellation |
| FourDimensionalAdventure.AddCoordinate | 25/src/main.rs:55-90 | one pass of the outer loop turns the constellations into their next state: merge into the first touched constellation, or append a new one-point constellation when none is touched |
| FourDimensionalAdventure.A | 25/src/main.rs:52-95 | `a` answers the constellations obtained by adding the points one after the other, in input order |
| FourDimensionalAdventure.StepNew | 25/src/main.rs:85-89 | a point that touches no constellation is appended as a constellation of its own, everything else unchanged |
| FourDimensionalAdventure.StepMerges | 25/src/main.rs:70-84 | when the first touched constellation is at `main`, the constellations before it are unchanged, the one at `main` gains the point and the other touched constellations' points, and the count drops by the number of touched constellations less one |
| FourDimensionalAdventure.RemoveDescBelow | 25/src/main.rs:81-84 | removals at indices above `main` leave `main` and everything before it in place, so the merged constellation is still at `main` afterwards |
| FourDimensionalAdventure.RemoveAtUnion | 25/src/main.rs:83 | `Vec::remove` takes exactly the removed constellation's points out of the collection |
| FourDimensionalAdventure.RemoveDescUnion | 25/src/main.rs:81-84 | removing the touched constellations takes exactly the points that were merged out of the collection |
| FourDimensionalAdventure.RemoveDescKeeps | 25/src/main.rs:81-84 | removal keeps the remaining constellations non-empty and pairwise apart, and every remaining one is an original constellation that was not removed |
| FourDimensionalAdventure.MergeUnion | 25/src/main.rs:70-84 | merging loses and duplicates no point: the points after a merge are the points before plus the new one |
| FourDimensionalAdventure.MergedApart | 25/src/main.rs:70-84 | after a merge, the merged constellation is apart from every constellation that stays, and no constellation is empty |
| FourDimensionalAdventure.NewKeeps | 25/src/main.rs:85-89 | a new one-point constellation adds its point and is apart from all the others |
| FourDimensionalAdventure.StepKeeps | 25/src/main.rs:55-90 | each added point keeps the invariant: the constellations hold exactly the points so far, none is empty, and no two points in different constellations are within distance 3; connected constellations stay connected |
| FourDimensionalAdventure.LinkedSymmetric | 25/src/main.rs:60 | a chain of points at most 3 apart links its ends either way |
| FourDimensionalAdventure.LinkedTrans | 25/src/main.rs:60 | two chains meeting at a point make one |
| FourDimensionalAdventure.HubConnected | 25/src/main.rs:70-79 | a constellation whose every point is chained to one point is connected |
| FourDimensionalAdventure.GatherHolds | 25/src/main.rs:74-78 | every point of each merged constellation is in the merged one |
| FourDimensionalAdventure.MergedConnected | 25/src/main.rs:70-79 | merging connected constellations that the new point touches, together with the point, gives a connected constellation |
| FourDimensionalAdventure.NewConnected | 25/src/main.rs:85-89 | a new one-point constellation is connected |
| FourDimensionalAdventure.MergeConnected | 25/src/main.rs:70-84 | after a merge and the removals every constellation is still connected |
| FourDimensionalAdventure.ConstellationsPartition | 25/src/main.rs:52-95 | the answer of `a` partitions the input into its linked groups: every point appears in it as often as in the input, no constellation is empty, two points at most 3 apart are never in different constellations, and any two points of one constellation are joined by a chain of points at most 3 apart inside it |

## Left out

- File reading, the input and sample-test driver (lib/src/lib.rs and the `run_day`, `run_input` and `run_tests` callers) and all printed output are I/O and are left out.
- The wasm and web front-ends (17/src/web.rs, 18/src/web.rs, 20/src/web.rs, common/src/wasm.rs), the canvas renderer (common/src/canvas.rs) and the generated bindings are rendering and foreign-function glue, not logic.
- Regular-expression and date parsing by foreign crates is replaced by the parsed records as parameters.
- Machine-integer overflow is not modelled: every integer is unbounded, with a precondition where wrap-around would change the outcome.
- The `Grid` value and enumerating iterators (`GridIterator`, `GridEnumerator`) of both grid files are a `get` on each produced coordinate; they are not modelled separately.
- lib/src/grid.rs is the same code as lib/src/coordinates.rs under `Cord` naming and is covered by ColumnGrid.
- `Grid::print` and the terminal canvas (common/src/canvas.rs, common/src/wasm.rs) are output only.
- `isize` to `usize` casts in `raw_x`/`raw_y` are modelled as integer subtraction; a negative raw index, a panic in the source, is excluded by the `Contains` precondition of Get and Set.
- 1/src/main.rs and 1/main.rs: reading the input file, parsing whitespace-separated numbers and printing the results are left out; the model takes the list of changes.
- ChronalCalibration: `i32` frequencies are modelled as unbounded integers, so overflow (a panic in debug builds) is not modelled.
- ChronalCalibration.B: the source loops forever when no frequency repeats (and on an empty list); the model stops after `fuel` changes and answers `None`.
- 2/src/main.rs: reading and splitting the input and printing are left out; part B returns its answer instead of printing it.
- InventoryManagement.IdDiff: the source panics (`unwrap` on `nth`) when `right` is shorter than `left`; the model requires `right` to be at least as long, and part B requires IDs of one length, as the puzzle input has.
- InventoryManagement: IDs are ASCII, so the source's byte slicing `id[i..]` and character positions agree; non-ASCII IDs are not modelled.
- 3/src/main.rs: parsing the claim lines (`#id @ x,y: wxh`) and printing are left out; the model starts from `Claim` values, and `b` returns the id instead of printing it.
- SliceIt: `usize` edges and `i32` counters are unbounded in the model; overflow is not modelled.
- SliceIt: the cloth `Vec<Vec<i32>>` (columns of cells) becomes one `array2`, indexed column first as the source indexes `cloth[x][y]`.
- 4/src/main.rs: parsing the records with regular expressions and `chrono`, and sorting them by timestamp, are left out; the model starts from the sorted `Event` values, keeping only the minute of each timestamp.
- ReposeRecord: the `usize` counters become integers; a wake-up at an earlier minute than the matching nap would underflow and panic in the source and gives a negative counter in the model.
- ReposeRecord.A and ReposeRecord.B: `HashMap` iteration order is unspecified; the model takes it as a parameter listing each guard once, and states the choice for every order. Ties go to whichever comes first in that order, as the ensures of both methods state.
- ReposeRecord.A and ReposeRecord.B: the products `guard * minute` are printed, not modelled; the methods return the pair.
- 5/src/main.rs: reading the polymer and printing are left out; `a` only prints `compress_polymer`, which is modelled as AlchemicalReduction.CompressPolymer. 5/main.rs has the same `compress_polymer` and `b` and is covered by the same members.
- AlchemicalReduction: units are ASCII bytes; the source's `c as u8` truncation of non-ASCII characters is not modelled.
- AlchemicalReduction.B: uses the corrected `compress_polymer` (CompressPolymerFixed), as the Findings table explains.
- 6/src/main.rs: parsing the locations and choosing the range (32 for the sample, 10000 otherwise) are left out; the range is a parameter and the results are returned instead of printed.
- ChronalCoordinates.A: requires the box to start at the origin. The pruning loops index the grid with real coordinates 0 to width - 1 and 0 to height - 1, which name the border cells only then. With a positive offset the `(x - x_offset) as usize` conversion (lib/src/coordinates.rs:22-24) of column 0 underflows and the read panics; with a negative offset the reads of column `width - 1` and row `height - 1` (6/src/main.rs:76 and :80) convert to an index at or past `width` (or `height`), and the `Vec` index panics. Either way the source panics, and the model does not cover that case.
- ChronalCoordinates: 6/src/main.rs uses the grid of lib/src/coordinates.rs. That file defines `Grid::new_cord_offset` (line 33) and `Loci::sub_loci` (line 305); `cords()` and `sub_cord` are defined only under the `Cord` naming of lib/src/grid.rs (lines 52 and 305), and `Grid::new_loci_offset` is defined in neither file. The model reads them as the column-major constructor, point subtraction and the `GridCords` iteration, the last in the corrected order described under Findings.
- ChronalCoordinates.FindClosestLocation: `min_distance` starts at `usize::MAX`; the model starts from the first location instead, which differs only for a distance of `usize::MAX`, since distances are unbounded in the model.
- ChronalCoordinates.CellsInBox: corrected; it is the full column-major enumeration, whereas the as-written `GridCords` visits only the first column (see Findings).
- ChronalCoordinates.BuildOwnerGrid: corrected; every cell is filled, whereas through the as-written `GridCords` only the first column would be.
- ChronalCoordinates.Bounds: `Loci::max_value()` is `isize::MAX` in both coordinates (lib/src/coordinates.rs:243-245); `isize` is otherwise unbounded in the model.
- 15/src/main.rs: parse_input, the sample outcomes 27730 and 4988, the eight test outcomes and the commented-out map printing are left out; the model starts from the units and the wall grid.
- BeverageBandits: `RefCell` units borrowed from one vector become a sequence of values that each move and attack replaces; borrowing conflicts cannot arise because a unit never searches or attacks itself.
- BeverageBandits.MainGame: the source loops until the fight ends; the model plays at most `fuel` rounds and answers `OutOfFuel` beyond them. The outcomes of particular battles are not computed.
- BeverageBandits.Search: the functional search answers `None` for a state that breaks the search invariant (a closed or off-map cell chosen, a neighbour left unrecorded); FindShortestPath proves that the search never reaches such a state.
- BeverageBandits.IsWall: a cell outside the map counts as a wall, so the search never enters it; `is_space_open` (15/src/main.rs:220-225) would index past the grid there and panic, for example on the one-row map `E.G` with no wall border. On a map whose edge is all wall, which every puzzle map is, WalledNeighbors shows that no such lookup arises from an open cell.
- BeverageBandits.PickPath: with two empty paths the source would index below zero; the model keeps the earlier path. An empty path only arises for an enemy at the unit's own position, which does not happen.
- BeverageBandits.B: the source panics with "no answer" when no power up to 199 works; the model answers `None`.
- BeverageBandits: `isize` coordinates and health are unbounded in the model.
- Parsing the manual and the test program with regular expressions (16/src/main.rs:43-79) is not modelled; samples and instructions are given as sequences of numbers.
- Device.Run: `usize` overflow of add and multiply is not modelled, registers are unbounded naturals; an out-of-range register index, a panic in the source, is the `None` result.
- ChronalClassification.DeriveOpMapping: the source loops until every opcode is assigned and never ends when the samples do not pin them all down; the model bounds the passes with `fuel` and returns `None` when they run out.
- ChronalClassification.B: the deduced numbering is returned and the run is tied to it, but the numbering itself is characterised only by DeriveOpMapping's properties, not by a function of the samples; where the samples admit several such numberings, the contract does not say which one the pass order of the deduction settles on.
- Reading the input file and the sample/real switch of `run_day` (19/src/main.rs:76-89) are not modelled; the parsed program is a parameter.
- Device.RunProgram: the source loops for as long as the program runs; the model bounds the steps with `fuel` and reports `OutOfFuel`. Decrementing an ip register that holds 0 after the loop, an underflow panic in the source, is `Fault`.
- GoWithTheFlow.B: the claim that the input program computes this divisor sum is the author's reading of their own input, which is not part of this model; only the loop of `b` is proved.
- The print of register 3 at address 29 in `run_program` (21/src/main.rs:140-142) is output only and is left out.
- ChronalConversion.B: the source returns the value before the first repeat; the model proves it is the last of a repeat-free run of the recurrence whose successor repeats, but not that this is the value that makes the original program run longest, which depends on the author's input.
- Parsing the depth and target (22/src/main.rs:44-65), `b`'s `unwrap` (22/src/main.rs:107-109) and the sample assertions are not modelled; `b` is FindShortestPath with its `None` kept.
- ModeMaze.FindShortestPath: the returned time is proved least only at a rocky target; elsewhere it is proved to be at most 7 minutes above the least time, and the source does not always deliver the least time. It stops at the first popped state at the target, whatever the tool held, and adds 7 when that tool is not the torch (22/src/main.rs:217-221), while its estimate (22/src/main.rs:161-168) charges nothing for holding neither tool. At a wet or narrow target, the state holding neither tool with time g can be popped before the torch state with time t, g <= t < g + 7, and the answer g + 7 then exceeds t. No concrete cave exhibiting this is evaluated, so it is not listed as a finding.
- ModeMaze.Relax: pushing a state that is already queued replaces its entry, minutes and priority together; how the priority-queue crate treats an item already queued is not part of this model.
- ModeMaze.PopMin: ties on priority are broken by position in the open set; the crate's heap order on ties is not modelled.
- ModeMaze.BuildCave: `isize` arithmetic is modelled as unbounded integers; the geologic index of a product of two erosion levels stays below 20183 squared, so no overflow is lost.
- Displaying regions and tools with terminal colours (22/src/main.rs:379-403) is output only.
- The sample answers of day 22 (114 for part A and 45 for part B, 22/src/main.rs:88-91) are not restated as lemmas: evaluating the cave and the search on concrete input is beyond what the verifier can unfold.
- 24/src/main.rs parse_input (regex parsing of the armies) and the sample assertions 5216 and 51 in `main`: input text handling; the model starts from a list of `Group` values.
- ImmuneSystemSimulator: `isize` is modelled as an unbounded integer; effective power and damage cannot overflow in the model.
- ImmuneSystemSimulator.SortBy: `sort_unstable_by` leaves the order of groups with equal keys unspecified; the model fixes one order (an insertion sort that puts later equal groups first). SortByOrdered states only what every such sort shares: a descending permutation.
- ImmuneSystemSimulator: the `RefCell` groups, read and updated in place inside one vector, become a sequence of values that each step replaces. Borrow conflicts cannot arise, because selectors never read their own entry and attackers never attack their own army.
- ImmuneSystemSimulator.FindTargetIndex: the panic on a missing target becomes a precondition. Located proves that the precondition always holds inside `run`.
- ImmuneSystemSimulator.B: `b` loops until the immune system wins, possibly forever; the model searches boosts 1 to `fuel` and answers `None` past them.
- 25/src/main.rs parse_input (regex parsing of the coordinates), the sample expectations 2, 4, 3 and 8 in `run_tests`, and printing the count: input and output handling; the model starts from a list of `Coordinate` values.
- FourDimensionalAdventure: `isize` coordinates are modelled as unbounded integers; distances cannot overflow in the model.
- FourDimensionalAdventure: the `RefCell` constellations, extended in place inside one vector, become a sequence of values that each step replaces.
- FourDimensionalAdventure.Distance: the triangle inequality is not proved.
- Day 7: parsing the dependency lines with a regular expression is not modelled; the dependencies are given as pairs of letters.
- SumOfItsParts.Slots: the `usize` subtraction `workers - worker_tasks.len()` (7/src/main.rs:157) would panic with more tasks than workers; `Slots` answers 0 there, and SecondsKeeps proves the case never arises.
- Day 8: reading the numbers from the input text is not modelled; the licence file is given as a sequence of numbers.
- Day 11: 11/src/main.rs imports `OffsetLociX` and `OffsetLociY` and calls `set_loci`, two-argument `get` and `get_mut`, and `x_max`/`y_max`, which only common/src/coordinates.rs defines; the day is therefore modelled on that row-major grid and its `GridLocis` iterator. Part A's guard stops three short of the edge, so the last 3x3 squares on the far sides are never scored; this is what the code does and is modelled as written.
- Day 12: part B's extrapolation from a settled pattern and the sample answer 325 are not modelled; RunGenerations covers any number of generations directly.
- SubterraneanSustainability.PadFront: corrected; it checks offsets 0 to 3 (`Reach` 4), whereas 12/src/main.rs:95 checks 0..=2 and so can skip a pot that should change (see Findings).
- SubterraneanSustainability.PadBack: corrected; it checks offsets 1 to 4, whereas 12/src/main.rs:105 checks 1..=3 (see Findings).
- SubterraneanSustainability.Generation: corrected; one pass is `Step` with the four-pot padding, not the source's three-pot padding.
- SubterraneanSustainability.RunGenerations: corrected; it returns the score of the four-pot generations, which differ from the source's on inputs such as MissedPlant's.
- Day 13: the track parser is reduced to `under_track`; direction characters are a `Dir` type, a train driven off the tracks (an out-of-grid read, a panic in the source) is the `Derail` ending, and the unbounded loops of `a` and `b` take `fuel`.
- MineCartMadness.B: corrected; it reports the cell of the one train left, whereas 13/src/main.rs:188-208 reports `last_train`, which can be a cell emptied later in the same tick (see Findings).
- MineCartMadness.RunBFixedFindsLast: states the corrected `b`; the as-written report is RunBReportsCrashedTrain.
- Day 14: the sample answers of `a` and `b` are not restated as lemmas: evaluating the scoreboard for them is beyond what the verifier can unfold.
- ChocolateCharts.Hunt: corrected; it searches the initial board before the first round, and searches each window once the board is as long as the string (from position 0 while it is short), whereas 14/src/main.rs:42-64 searches only after cooking and only once the board is longer than the string (see Findings).
- ChocolateCharts.B: corrected; it answers through Hunt, so it finds a pattern at position 0, which the source's `b` never answers.
- ChocolateCharts.SearchFixedFirst and ChocolateCharts.BFindsFirst: state the corrected search; the as-written miss is MissesFirstScore.
- Day 17: the driver of 17/src/main.rs is not modelled: `ab` (lines 31-39) clones the ground, calls `tick` until it answers false and returns `count_water`, and `main` asserts the sample answers 57 and 29 (lines 25-26); the model covers `tick` (ReservoirResearch.TickGround) and `count_water` (ReservoirResearch.CountWater) but not the loop joining them, whose termination rests on the ground only ever rising; the regular-expression line parsing is replaced by given `Vein` records, and a negative grid size or a spring off the grid, panics in the source, are excluded by ParseInput's precondition.
- Day 18: the sample answer 1147, the `Display` impl and 18/src/web.rs are not modelled. DefaultHasher is replaced by comparing grids for equality, so hash collisions are not modelled; the `BTreeSet` of hashes is a set of grids.
- Day 18: NextLumberyard requires the new grid to have the same frame as the old one; the source only needs it to cover the old one.
- Day 20: the drivers 20/src/main.rs and 20/src/web.rs are not modelled. common/src/coordinates.rs defines `Loci::max_value` (line 289) but no `Loci::min_value`, which 20/src/shared.rs:168 calls. Both only start the scan of `prune_map`; the model starts it from bounds just past the grid, which the first carved cell replaces as those extreme values would. PruneMap requires at least one carved cell, without which the source would build a meaningless grid.
- RegularMap.BuildFull: corrected; the grid is sized by the furthest reach (MaxReach), whereas 20/src/shared.rs:149 uses `max_distance`, so for paths that do not overflow the source's grid the centre and size still differ (for `NS` the source's centre is (4, 4), the model's (4, 6)).
- RegularMap.CarvedInterior: corrected; it holds of the grid sized by the furthest reach, which the source's `max_distance` grid lacks (see Findings).
- RegularMap.BuildMap: corrected; it returns the centre and grid of the furthest-reach sizing, not those of 20/src/shared.rs:148-164.
- Day 23: regions with fully equal scores are popped in queue order, the earliest pushed first; the priority-queue crate's heap order among equal priorities is not modelled.
- Days 9 and 10 (9/src/main.rs and 10/src/main.rs), the template and the wasm front-ends are not part of this model.

## Findings

| source | as written | input that shows it | evidently intended | confidence | as-written member | corrected member |
|---|---|---|---|---|---|---|
| lib/src/coordinates.rs:128-152 | `GridCords` compares against the raw width and height without the offsets, and wraps to the next column only once `y > height` | a 2 x 2 grid without offsets: the iterator yields (0, 0) and (0, 1), then stops, never reaching (1, 0) | visit every cell of the grid, column by column | high, not executed | ColumnGrid.CordsMissesSecondColumn | ColumnGrid.CollectFixedCords |
| 1/src/main.rs:27-40 | the set of seen frequencies starts empty, so the start frequency 0 is never counted as reached | changes +1, -1: frequency 0 is reached again after two changes, but 1 is reported after three | count the start frequency, as the puzzle's own example (+1, -1 first reaches 0 twice) does, and answer 0 | medium, not executed | ChronalCalibration.StartNotRecorded | ChronalCalibration.FirstRepeat |
| 4/main.rs:101-102 | the final write-out of the last guard's tally is commented out | one shift, guard 10 asleep from 00:05 to 00:25: no tally is stored at all, and the `unwrap` lookup of the chosen guard fails | store the last guard's tally after the loop, as 4/src/main.rs:96 does | high, not executed | ReposeRecord.LastShiftLost | ReposeRecord.CalculateGuardSchedules |
| 5/src/main.rs:37-57 | the polarity test also compares a character with the sentinel `#` (35), and `C` (67) differs from it by exactly 32 | the polymer "C" followed by a newline: the `C` reacts with the sentinel and vanishes, so the answer is 0 | only a real pending unit above the sentinel can react, giving 1 | high, not executed | AlchemicalReduction.SentinelReacts | AlchemicalReduction.FixedIsReduce |
| 12/src/main.rs:95-119 | the row is padded until three empty pots lie at each end, and the two pots at each end are never recomputed | the row `...#` with the single rule `....# => #`: pot 1 should grow a plant, but it is one of the two end pots that are skipped | pad until four empty pots lie at each end, so every pot that can change is recomputed | high, not executed | SubterraneanSustainability.MissedPlant | SubterraneanSustainability.IterateSound |
| 13/src/main.rs:188-208 | part B reports `last_train`, the cell where the last train that moved safely landed, even when another train hits it later in the same tick | the row `->-->-<-`: `b` as written reports (5, 0), an empty cell, while the only train left is at (2, 0) | report the cell of the one train still on the tracks | high, not executed | MineCartMadness.RunBReportsCrashedTrain | MineCartMadness.RunBFixedFindsLast |
| 14/src/main.rs:42-64 | the search window starts at `len - |pattern| - 1` and is only checked once the board is longer than the pattern, after the first round | the pattern `3`: the board starts with 3, yet `b` never answers 0 | check every window from position 0, the board as it grows | high, not executed | ChocolateCharts.MissesFirstScore | ChocolateCharts.SearchFixedFirst |
| 20/src/shared.rs:125-136 | the grid is sized by each run's net displacement, not by how far the run ever gets from its start | the path `NNNSSS`: the size is (0, 0), the grid is 8 by 8 around (4, 4), and the door at (4, -1) falls outside it, where `set_loci` panics | size the grid by the furthest reach of every run | high, not executed | RegularMap.DistanceOverflows | RegularMap.ReachFits |
| 23/src/main.rs:117-125 | the starting box is half-open, so it excludes the largest bot coordinate on every axis | a single bot at (1, 2, 3): the box is empty on every axis, `find_closest` answers None and `b` panics | include the largest coordinate in the box | high, not executed | ExperimentalEmergencyTeleportation.LoneBotNotFound | ExperimentalEmergencyTeleportation.ClosestFixedOptimal |
| 23/src/main.rs:241-248 | regions with equal bot counts are ranked by distance to the origin in ascending order, so the max-heap pops the farther region first | bots at the origin and at (2, 1, 1), both of radius 5: `b` answers 1 although the origin is in range of both | pop the region nearer the origin first on a tie | medium, not executed | ExperimentalEmergencyTeleportation.PairFartherFirst | ExperimentalEmergencyTeleportation.ClosestFixedReachesAll |
