# Guard patrol: a Dafny model

This project models the engine of a guard-patrol puzzle. A guard walks a
rectangular room of cells. Each cell is empty, an obstacle, visited, or the
guard with a facing. On every step the guard records its state (facing,
position) on a trail and marks its cell visited. It then either steps ahead,
or turns right in place when an obstacle is ahead. It stops when the step
ahead leaves the room.

Part one counts the cells the patrol visits. Part two tries one extra
obstacle on every cell of that patrol except the start. It counts the
obstacles that make the guard revisit a state, which means it loops for ever.

The model follows `src/part1and2.rs` (the step functions, `check_for_loop`,
`deduplicate_vec` and the pure part of `run`) and `src/types.rs` (cells,
glyphs, the parse and transpose, the mutators, `find_guard`, the replay
cursor and the text display). Modules:

- `Seqs`: sequence helpers (element sets, distinctness, first index).
- `Types`: directions, cells, the room record, parse and display, single-cell
  writes, the guard scans and the replay cursor (`advance`, `retreat`).
- `Step`: `turn_right`, `get_newspace`, the bounded turn search and `move_guard`.
- `Patrol`: the reference semantics `Walk` (n calls of `move_guard`),
  `deduplicate_vec`, the candidate list, `check_for_loop` and the baseline loop.
- `Tally`: the part-one count, and why it equals the number of distinct
  trail positions.
- `Cycle`: why a repeated trail state means the guard never stops. With one
  guard, each step depends only on the guard's state and the fixed obstacles.
- `Puzzle`: `run` on its input lines, with both answers.

A grid is stored transposed from its text, as the source does:
`grid[x][y]` is character `x` of line `y`.

`move_guard` scans the whole grid and keeps overwriting what it found. It
therefore acts on the LAST guard cell in x-then-y order. `find_guard` returns
the FIRST. Both are modelled, and `SingleGuardScansAgree` shows they agree
when there is one guard.

The parser knows only `^`, it has no parse errors and no reset, and an empty
cell prints as a space. The model follows the code.

Some functions keep only shape facts in their own `ensures`; their full
contracts are separate lemmas. `LastGuard` is paired with `LastGuardSpec`,
`Look` with `LookSpec`, and `MoveGuard` with `MoveGuardSpec`. This keeps
`Walk`, which applies `MoveGuard` repeatedly, cheap for the verifier.

## Model

| member | source | states |
|---|---|---|
| `Types.Glyph` | src/types.rs:26-40 | The glyph of each cell kind (`^ v < >`, `#`, `.`, space). Parsing the glyph back gives the cell with non-`^` guards and visited cells read as empty. No glyph is a newline. |
| `Types.GlyphInjective` | src/types.rs:26-40 | Distinct cells print as distinct glyphs. |
| `Types.ParseCell` | src/types.rs:67-72 | Only `^` reads as a guard, facing up. Only `#` reads as an obstacle. Nothing reads as visited; every other character is empty. |
| `Types.Transpose` | src/types.rs:76-82 | The result has as many rows as `m[0]` has entries, each as long as `m` is, and `t[i][j] == m[j][i]`. |
| `Types.ParseGrid` | src/part1and2.rs:26-45 | For lines that are nonempty overall and no shorter than the first line: a rectangular grid with one column per character of the first line and one cell per line. Cell `[x][y]` is the parse of character `x` of line `y`. |
| `Types.FromLines` | src/types.rs:58-84 | `from_file` without the file reading: the named room with cursor 0, an empty trail, the transposed parse of the lines, and no visited cell. |
| `Types.NewRoom` | src/types.rs:51-57 | An empty grid that displays as "", cursor 0, the given name, and the given trail or an empty one. |
| `Types.Display` | src/types.rs:147-170 | An empty grid displays as "". Otherwise the lines are a header with one dash per entry of `g[0]`, then one line per entry of `g[0]`, each with one character per column of `g`, where character `r` on line `c` is the glyph of `g[r][c]`, then the same footer. The text ends with a newline, after the footer. |
| `Types.DisplayParseRoundTrip` | src/types.rs:147-170 | Parsing the body lines of a display gives back the grid, up to the cells the parser cannot tell apart (visited cells and guards not facing up read as empty). |
| `Types.SetCell` | src/types.rs:104-112 | Writing one cell changes exactly that cell and keeps the grid rectangular. |
| `Types.AddObstacle` | src/types.rs:104-106 | Cell `[x][y]` becomes an obstacle, every other cell is unchanged, and name, cursor and trail are kept. |
| `Types.AddGuard` | src/types.rs:107-109 | Cell `[x][y]` becomes the guard with facing `d`, every other cell is unchanged, and name, cursor and trail are kept. |
| `Types.VisitSpace` | src/types.rs:110-112 | Cell `[x][y]` becomes visited, every other cell is unchanged, and name, cursor and trail are kept. |
| `Types.FindGuard` | src/types.rs:113-125 | None exactly when no cell holds a guard. Otherwise it returns a guard cell with its facing, and no guard cell comes before it in x-then-y order. |
| `Types.LastGuard` | src/part1and2.rs:138-150 | A found state is an on-grid guard cell with that cell's facing. |
| `Types.LastGuardSpec` | src/part1and2.rs:138-153 | The scan of `move_guard` finds nothing exactly when there is no guard. Otherwise no guard cell comes after the one it finds in x-then-y order. |
| `Types.SingleGuardScansAgree` | src/types.rs:113-125 | With a single guard, `find_guard` and the scan of `move_guard` both return that guard's state. |
| `Types.Advance` | src/types.rs:93-103 | With the cursor on an entry it moves up by one, otherwise nothing changes, and a cursor at most the trail length stays so. If the new index is an entry, the guard shows at the new entry's cell. When that cell differs from the old entry's cell, the old one is visited; when both entries share a cell, as on a turn in place, that cell shows the guard. No other cell changes. Otherwise the grid is unchanged. |
| `Types.Retreat` | src/types.rs:85-92 | `retreat` as written acts only when the cursor is on an entry other than the first. It decrements the cursor by one and leaves the old entry's cell showing that entry's guard. All other cells are unchanged. |
| `Types.RetreatLosesCursor` | src/types.rs:85-92 | On a two-entry trail whose cursor cell shows its guard, `retreat` leaves a room whose cursor cell no longer shows the guard. |
| `Types.RetreatToPrevious` | src/types.rs:85-92 | Corrected `retreat`: when it acts, it decrements the cursor, clears the old entry's cell and shows the guard of the previous entry. Only those two cells change. |
| `Types.AdvanceThenRetreat` | src/types.rs:85-103 | After `advance`, the corrected `retreat` returns the cursor to where it was and shows the guard of that entry again. |
| `Step.TurnRight` | src/part1and2.rs:106-113 | A quarter turn clockwise: the clock position advances by one modulo 4, and the result always differs from the input. |
| `Step.FourTurns` | src/part1and2.rs:106-113 | Four right turns are the identity, and one to three turns never give the starting facing back. |
| `Step.TurnsCover` | src/part1and2.rs:106-113 | Every facing is reached from any facing within four right turns. |
| `Step.NewSpace` | src/part1and2.rs:77-92 | None exactly when the neighbour is off the grid: Up at y=0, Left at x=0, Down at the last y of the column, Right at the last x. Otherwise it returns that neighbour, one step away in one coordinate and on a rectangular grid. |
| `Step.NewSpaceMoves` | src/part1and2.rs:77-92 | A neighbour is never the position itself. |
| `Step.Look` | src/part1and2.rs:94-104 | A Clear result names a facing whose neighbour is on the grid and is not an obstacle. |
| `Step.LookSpec` | src/part1and2.rs:94-104 | The search settles on the first of 0–3 right turns whose neighbour is not an obstacle. Clear names that facing. Exit means that facing leads off the grid. Trapped happens exactly when all four neighbours are obstacles. |
| `Step.EnclosedIffFourBlocked` | src/part1and2.rs:96-97 | Being blocked on the four facings reached by turning is the same as being blocked on every facing. |
| `Step.LookSameObstacles` | src/part1and2.rs:94-104 | The search reads only the obstacle layout: two grids with the same obstacles give the same result. |
| `Step.TurnUntilFree` | src/part1and2.rs:94-104 | `get_newspace_with_obstacle` as written, with its recursion cut off by fuel. A found cell is the on-grid, non-obstacle neighbour in the reported facing. Finding no cell means some facing leads off the grid. The fuel runs out exactly when every facing tried, one per call, is blocked. Its partners are `EnclosedNeverSettles`, for the enclosed guard, and `LookAgreesWithSource`, which ties it to the bounded search. |
| `Step.EnclosedNeverSettles` | src/part1and2.rs:94-104 | The recursion as written never returns for an enclosed guard, however much fuel it is given. |
| `Step.FourWalls` | src/part1and2.rs:94-104 | A cell away from the edge with obstacles on all four sides is enclosed. |
| `Step.LookAgreesWithSource` | src/part1and2.rs:94-104 | For a guard that is not enclosed, the bounded search returns what the recursion as written returns, within four calls. |
| `Step.MoveGuard` | src/part1and2.rs:137-166 | A step keeps the grid rectangular with the same width. It adds at most one trail entry, and exactly one when it continues. |
| `Step.MoveGuardSpec` | src/part1and2.rs:137-166 | Obstacles are never altered. Without a guard, grid and trail are unchanged and the step stops. With a guard, exactly its state is appended. The step continues exactly when the search finds a free cell, and is stuck exactly when the guard is enclosed. |
| `Step.MoveGuardCells` | src/part1and2.rs:154-161 | After a successful search, the guard shows its next state: one cell ahead with the same facing, or turned in place. The old cell is visited when the guard moved, and nothing else changes. Otherwise the old cell is visited and nothing else changes. |
| `Step.MoveGuardKeepsOneGuard` | src/part1and2.rs:137-166 | With a single guard, the step records its state. A continuing step leaves exactly one guard, in a new state. A step that does not continue leaves no guard at all. |
| `Patrol.Dedup` | src/part1and2.rs:8-16 | The result has no repetitions and the same elements as the input. Its elements keep the order of their first occurrences in the input. |
| `Patrol.Candidates` | src/part1and2.rs:58-61 | The distinct trail positions, without the start position (empty for an empty trail), with no repetitions. |
| `Patrol.Walk` | src/part1and2.rs:47-53 | `n` calls of `move_guard` on a fresh trail, stopping at the first call that does not continue. The trail has at most `n` entries, exactly `n` while the guard still walks. |
| `Patrol.WalkSettled` | src/part1and2.rs:50-53 | Once the patrol has stopped, more calls change nothing. |
| `Patrol.WalkKeeps` | src/part1and2.rs:137-166 | A patrol of any length keeps the obstacle layout and records only on-grid positions. |
| `Patrol.EnclosedCandidate` | src/part1and2.rs:94-104 | On the room `.#.` / `#^#` / `...`, an obstacle at `(1, 2)` gets the guard stuck. The source's recursion from the start state never returns, for any fuel. Without the obstacle, the patrol turns twice at `(1, 1)`, steps to `(1, 2)` and leaves the room after three calls, so `(1, 2)` is a candidate. |
| `Patrol.StatesCount` | src/part1and2.rs:121-133 | A `w` by `h` grid has `4·w·h` guard states: the bound on `checkpoints`. |
| `Patrol.RoomLeft` | src/part1and2.rs:121-133 | A repetition-free list of on-grid states that misses one on-grid state is shorter than `4·w·h`. |
| `Patrol.FreshState` | src/part1and2.rs:126-132 | A continuing step whose new state is not yet recorded keeps the trail free of repetitions, and within the `4·w·h` bound. |
| `Patrol.Watch` | src/part1and2.rs:120-133 | The checkpoint loop reports a loop exactly when some prefix of the patrol ends in a state it has seen before. It reports Enclosed only when the guard gets stuck, and LeftGrid only when the patrol stops and is never stuck. It terminates because the checkpoints stay distinct on-grid states. |
| `Patrol.CheckForLoop` | src/part1and2.rs:115-135 | A cell that is already an obstacle gives None without a patrol. Otherwise the result is `Some((obsx, obsy))` exactly when the new obstacle there makes the guard revisit a state. Hangs only when the guard gets enclosed. None for a free cell only when the guard is never enclosed and leaves the grid. |
| `Patrol.RunBaseline` | src/part1and2.rs:47-53 | The baseline loop with `fuel` calls is `Walk(g, fuel)`, and if it is still walking, it has made exactly `fuel` calls. |
| `Tally.CountVisited` | src/part1and2.rs:55 | The part-one count is zero exactly when no cell is marked visited. `CountIsCard` and `VisitedIsDistinctPositions` fix its value. |
| `Tally.GridVisits` | src/part1and2.rs:55 | Lists every visited cell of the grid exactly once and nothing else. |
| `Tally.CountIsCard` | src/part1and2.rs:55 | The visited count is the size of the set of positions that are exactly the visited cells. |
| `Tally.StepMarks` | src/part1and2.rs:154-161 | With one guard and the other trail positions marked visited, a step keeps that bookkeeping. When it stops, all trail positions are marked and no guard is left. |
| `Tally.WalkMarks` | src/part1and2.rs:47-55 | Starting from one guard and no visited cell, every prefix of the patrol is marked in this way. |
| `Tally.VisitedIsDistinctPositions` | src/part1and2.rs:47-55 | Part one: when the patrol from one guard has ended, the visited count is the number of distinct trail positions. |
| `Cycle.WalkFollows` | src/part1and2.rs:137-166 | With one guard, the patrol after `n` calls is the `n`-fold iteration of the guard's successor state. It is still walking exactly when every state so far found a free cell, and the trail lists the states in order. |
| `Cycle.GuardStep` | src/part1and2.rs:137-166 | A step on a grid with a single guard in state `s` appends `s`. It continues exactly when `s` finds a free cell, and the guard then shows the successor state. |
| `Cycle.RepeatIsForever` | src/part1and2.rs:123-129 | The loop test is sound: with one guard, once the newest trail state already occurs earlier, the patrol never stops nor gets stuck. |
| `Cycle.LoopsWithIsForever` | src/part1and2.rs:115-135 | A candidate obstacle away from the single guard that `check_for_loop` reports keeps the guard walking for ever. |
| `Puzzle.TryObstacles` | src/part1and2.rs:59-65 | Over all candidates: either some candidate gets the guard enclosed, or the obstacles found are exactly the candidates that make the guard loop, and every candidate either makes the guard loop or never gets it stuck. |
| `Puzzle.PartTwo` | src/part1and2.rs:57-70 | The loop count is the number of distinct trail positions, other than the start, where a new obstacle makes the guard loop, unless some candidate gets the guard enclosed. When it reports no hang, every such position is on the grid and either makes the guard loop or never gets it stuck. |
| `Puzzle.Solve` | src/part1and2.rs:18-75 | It panics exactly for input the source cannot transpose or patrol, and runs out of fuel exactly when the baseline patrol is still walking. Otherwise the answers are the visited count of the final grid and the loop count. With a single guard, the visited count is the number of distinct trail positions. It diverges only where the source's search never returns. It answers only when every candidate either makes the guard loop or never gets it stuck, so `run` returns on that input. |

## Left out

- Reading the input file, the `AOC_INPUT` variable, timing, progress and answer printing in `run`, and the file reading in `from_file`: the model starts from the input lines, and `Solve` returns the two answers.
- `Room::print` (a sleep and a print), the `Deref`/`DerefMut` wrappers and `CheckRooms`: rooms and trails are plain sequences.
- `run` calls `Room::new()` without arguments and pushes rows onto the room. That does not match the two-argument `Room::new` of `src/types.rs`. The model of `run` works on a plain grid, and `NewRoom` follows the two-argument form.
- Patrol.RunBaseline: the baseline loop of `run` has no bound, so the model gives it fuel. `Solve` answers `OutOfFuel` when the fuel runs out before the guard stops.
- The source's unbounded recursion for an enclosed guard is not modelled as a hang. The bounded search returns `Trapped` there, and a step is then `Stuck`. `CheckForLoop` returns `Hangs` and `Solve` returns `Diverges` only where a patrol gets the guard enclosed. `Solve` answers only when the baseline patrol stops and no candidate gets the guard stuck without making it loop.
- Index panics are not modelled as crashes. `Solve` returns `Panics` for the inputs where `run` indexes out of bounds (no line, an empty first line, or a line shorter than the first). `ParseGrid` and `FromLines` require a nonempty list of lines, none shorter than the first, where `from_file` would panic. `Display` requires every row to cover the first row's length, where the display would panic. Other members require a nonempty rectangular grid, which is what `run` builds. `SetCell`, `AddObstacle`, `AddGuard`, `VisitSpace`, `Advance`, `Retreat`, `NewSpace` and `CheckForLoop` also require their position, or the trail entries they touch, to lie on the grid. There the source would panic on the index.
- Machine integers: positions are unbounded naturals. Every index the source computes stays below a grid length, so `usize` arithmetic neither wraps nor underflows on in-grid positions.
- Types.Display: the model displays the grid only, not the room's name, cursor or trail, which the display never prints.
- The rest of the program (Bevy systems, UI, camera, assets, command line and wasm entry) is not part of this model.

## Findings

| source | as written | input that shows it | evidently intended | confidence | as-written member | corrected member |
|---|---|---|---|---|---|---|
| src/part1and2.rs:94-104 | `get_newspace_with_obstacle` turns right and recurses while the cell ahead is an obstacle, without a bound | lines `.#.`, `#^#`, `...`: the baseline patrol visits (1,1) and (1,2), so (1,2) is a candidate; with an obstacle there the guard is enclosed at (1,1) and the recursion never returns | give up after four turns and report the guard as trapped | not executed | `Patrol.EnclosedCandidate` | `Step.LookSpec` |
| src/types.rs:85-92 | `retreat` reads the current entry, clears its cell, decrements the cursor, then puts the guard back on the cell it just cleared | trail `[(Down,(0,0)), (Down,(0,1))]`, cursor 1, grid `[[Visited, Guard(Down)]]`: after `retreat` the cursor is 0 but cell (0,0) still shows Visited | show the guard at the entry the cursor now points to, so that a retreat after `advance` shows the earlier entry again | not executed | `Types.RetreatLosesCursor` | `Types.AdvanceThenRetreat` |
