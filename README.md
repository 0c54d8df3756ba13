# Terminal Game of Life — a verified model of the simulation loop

The program runs Conway's Game of Life on the terminal sheet. Its whole logic sits in
`main()` of `src/main.rs`. A `height × width` boolean matrix holds the cells. The two top
rows show the generation, population and speed. The bottom row shows the help line. Every
row in between is playable.

The loop polls for input. `q` or Ctrl-C quits. `p` pauses or resumes. `+` and `-` change
the delay within [0, 99]. A left click flips one playable cell. When the game is running
and `8 × delay + 250` ms have passed, the loop computes one generation. It uses the 2/3
survival, 3 birth rule on a bounded, non-wrapping sheet. The population counter is kept
by +1/−1 bookkeeping and is never recounted.

The model has three modules:

- `Life` (`life.dfy`) holds the pure grid values. The grid is a `seq<seq<bool>>`. The module
  defines the eight-offset neighbour count, the rule (`NextState`) and one generation
  (`NextGen`). It also defines the population as a full count of live cells and the
  single-cell toggle. The lemmas tie each of these to an independent statement: the Moore
  neighbourhood as a set, the classic B3/S23 rule, the incremental population update, the
  toggle being an involution and the empty sheet being a fixed point.
- `Simulation` (`simulation.dfy`) holds what the loop mutates. `Game` is a class with an
  `array2<bool>` sheet and the `population`, `generation`, `delay` and `paused` counters.
  Its methods `Click`, `Step`, `Tick`, `TogglePause`, `SpeedUp`, `SpeedDown`, `HandleEvent`
  and `RunIteration` run the source's branches. `Valid()` keeps the invariant
  `population == Population(Snapshot())`. `Step` writes into a fresh copy and reads
  neighbours only from the old sheet, and it is proved equal to `NextGen` of the old
  sheet. The neighbour probe keeps the source's `||` guard and its `isize`→`usize` cast. A
  lemma proves that, for terminal-sized sheets, this probe is a plain bounds check.
- `Scenarios` (`scenarios.dfy`) holds a blinker that alternates forever with population 3,
  a click on a fresh, paused game, and the `-` key clamping the delay at 99.

Two behaviours of the code that a reader might not expect:

- The code does not fail on an out-of-range click. It silently ignores a click outside the
  playable rows. It never checks the column.
- Pressing `p` while paused *disables* mouse capture, and pressing it while running
  enables it again.

## Model

| member | source | states |
|---|---|---|
| `Life.LiveNeighbours` | src/main.rs:165-182 | the live-neighbour count of any cell is at most 8, so the `u8` accumulator cannot overflow |
| `Life.CountLive` | src/main.rs:168-181 | scanning a list of offsets counts at most one live cell per offset |
| `Life.NeighbourCountIsMooreCount` | src/main.rs:166-182 | the eight-offset scan counts exactly the live in-grid cells of the Moore neighbourhood (every (dx, dy) in {-1,0,1}² except (0,0)); outside the grid counts as dead, with no wrap-around and no double counting |
| `Life.CountLiveIsSetSize` | src/main.rs:168-181 | along a duplicate-free list of offsets, the count equals the size of the set of live offsets |
| `Life.NeighboursUnfolded` | src/main.rs:166-174 | the count is the sum of the eight probes at the listed offsets |
| `Life.NextState` | src/main.rs:183-197 | the source's match on (count, state) is the B3/S23 rule: the next state is alive iff the count is 3, or the cell is alive and the count is 2 |
| `Life.NextGen` | src/main.rs:162-201 | one generation keeps the grid's dimensions and leaves every margin row unchanged; every playable cell follows B3/S23 applied to counts taken in the pre-step grid |
| `Life.NextGenAt` | src/main.rs:183-197 | a playable cell of the next generation is the rule applied to its state and its neighbour count in the old grid |
| `Life.StepRuleCases` | src/main.rs:183-197 | after a step, a live cell with 0–1 or ≥4 neighbours is dead, a dead cell is alive iff it had exactly 3, a cell with exactly 2 keeps its state, and a live cell with 2–3 survives |
| `Life.CountLiveOfDead` | src/main.rs:168-181 | in a grid with no live cell every neighbour count is 0 |
| `Life.AllDeadStable` | src/main.rs:162-201 | an all-dead grid is a fixed point of a step |
| `Life.AllDeadForever` | src/main.rs:162-201 | an all-dead grid stays all-dead for any number of generations |
| `Life.PeriodTwo` | src/main.rs:162-201 | two grids that step into each other alternate for every number of generations |
| `Life.ToggleCell` | src/main.rs:131-139 | a click flips exactly cell (row, column) and keeps every other cell and the dimensions |
| `Life.PopulationUpdate` | src/main.rs:184-195 | writing one cell changes the full-scan population by exactly (new − old), so the +1/−1 bookkeeping agrees with a recount |
| `Life.PopulationToggle` | src/main.rs:131-138 | toggling a live cell lowers the population by 1 and the population was ≥ 1, so the `usize` decrement never underflows; toggling a dead cell raises it by 1 |
| `Life.ToggleTwice` | src/main.rs:124-147 | toggling the same cell twice restores the grid |
| `Life.CountRowZeroIffDead` | src/main.rs:53-56 | a row has no live cell iff its count is 0 |
| `Life.PopulationZeroIffAllDead` | src/main.rs:48-56 | the population is 0 iff no cell is alive, matching the all-dead start with population 0 |
| `Simulation.AsUsize` | src/main.rs:170-172 | casting a negative `isize` to `usize` gives a value of at least 2^63; a non-negative one is unchanged |
| `Simulation.ProbeIsBoundsCheck` | src/main.rs:169-181 | on a sheet with `u16` dimensions, the or-guarded, wrapping `get` probe reads a live cell iff the probed position is inside the grid and alive |
| `Simulation.ProbeCounts` | src/main.rs:168-181 | each probe of the scan raises the running count by one exactly when it reads a live cell, so the scan's running count equals the count over the offsets seen so far |
| `Simulation.Clone` | src/main.rs:162 | the copy of the sheet is a fresh array with the same dimensions and the same cells |
| `Simulation.Flip` | src/main.rs:131-138 | flipping one array cell changes the sheet to the toggled grid, keeps the population equal to the count of live cells, and moves it by −1 for a live cell or +1 for a dead one |
| `Simulation.DelayAdjustments` | src/main.rs:107-118 | `+` and `-` keep the delay in [0, 99], are no-ops at 0 and at 99 respectively, and undo each other away from those bounds |
| `Simulation.GateProperties` | src/main.rs:157 | the gate waits between 250 and 1042 ms, the wait grows with the delay, an open gate stays open as time passes, and a paused game never advances |
| `Simulation.Game.constructor` | src/main.rs:44-57 | startup sheet all dead with population 0, generation 0, delay 50, paused |
| `Simulation.Game.TogglePause` | src/main.rs:99-106 | `p` flips the pause flag and touches nothing else |
| `Simulation.Game.SpeedUp` | src/main.rs:107-112 | `+` lowers the delay by one only when it is above 0, and changes nothing else |
| `Simulation.Game.SpeedDown` | src/main.rs:113-118 | `-` raises the delay by one only when it is below 99, and changes nothing else |
| `Simulation.Game.Click` | src/main.rs:122-148 | a click outside the playable rows changes nothing; otherwise the sheet becomes the toggled grid and the population moves by ∓1; generation, delay and pause flag are untouched and the population invariant holds |
| `Simulation.Game.Probe` | src/main.rs:169-181 | one probe with the `||` guard, the `usize` casts and the bounds-checked `get` reads returns what the guarded, wrapping probe over the current sheet reads |
| `Simulation.Game.LiveNeighbourCount` | src/main.rs:165-182 | the source's scan of the eight offsets, with its guard and cast, returns the live-neighbour count of the current sheet |
| `Simulation.Game.StepCell` | src/main.rs:165-197 | one cell of the copy gets its next-generation value computed from the old sheet; no other cell changes; the running population equals the copy's live-cell count |
| `Simulation.Game.StepRow` | src/main.rs:164-198 | every cell of one playable row of the copy gets its next-generation value; other rows are unchanged; the running population stays exact |
| `Simulation.Game.Step` | src/main.rs:162-201 | the new sheet is `NextGen` of the old one, the population still counts the live cells, and the generation goes up by exactly 1 |
| `Simulation.Game.Tick` | src/main.rs:156-159 | a generation is computed iff the game is not paused and `elapsed ≥ 8·delay + 250`; otherwise sheet and generation are unchanged |
| `Simulation.Game.HandleEvent` | src/main.rs:92-153 | the loop quits iff the event is `q` or Ctrl-C; `p` flips pause; `+`/`-` adjust the delay; a left click toggles a playable cell; nothing else changes anything |
| `Simulation.Game.RunIteration` | src/main.rs:89-159 | one loop pass handles the event, and then, unless it quit, advances exactly when the gate is open after that event; a quit leaves the sheet untouched, otherwise the new sheet is the clicked cell toggled (for a playable left click) followed by one generation when it advanced |
| `Scenarios.HorizontalToVertical` | src/main.rs:162-201 | a horizontal blinker becomes vertical after one step |
| `Scenarios.VerticalToHorizontal` | src/main.rs:162-201 | a vertical blinker becomes horizontal after one step |
| `Scenarios.BlinkerOscillates` | src/main.rs:162-201 | the blinker alternates between its two orientations in every generation, with population 3 |
| `Scenarios.SlowestDelayScenario` | src/main.rs:113-118 | pressing `-` repeatedly from the startup delay reaches 99, and one more press leaves it at 99 |
| `Scenarios.PausedClickScenario` | src/main.rs:122-148 | a click on a fresh game brings one cell to life and makes the population 1, while the game stays paused at generation 0 |

## Left out

- Terminal session setup and teardown are not modelled (src/main.rs:63-80, 228-230). These are raw mode, the alternate screen, the cursor, `Clear` and the help ribbon. They are terminal output with no effect on the modelled state.
- The mouse-capture calls on `p` are not modelled (src/main.rs:101-103). Only the pause flag flip is. So the model does not capture that the terminal reports no clicks while the game runs. `HandleEvent` accepts a click in either state.
- The `printer` module (`print_generation`, `print_population`, `print_speed`) is not part of this model. It is pure output.
- The full redraw after a generation (src/main.rs:204-217) and the one-cell repaint after a click (src/main.rs:134-145) are output only. They are left out.
- `poll`/`read` and `Instant`/`Duration` are not modelled. The polled event is an `Option<Event>` parameter, and the time since the last generation is a `nat` parameter `elapsed`. The caller resets its clock after a generation (src/main.rs:224).
- Terminal size lookup (`size()`) and resizing are not modelled. The dimensions are constructor parameters.
- Simulation.Game.constructor: requires a height of at least 3 (`TopMargin + BottomMargin`), so it omits the degenerate 1- and 2-row terminals. On those the playable range is empty.
- Simulation.Game.Click: requires the column of a click on a playable row to be below the width. The source indexes that column unchecked, which panics after a widening resize (the width is read once at startup, so a widened terminal can report a column past the sheet).
- Simulation.Game.Step: ends by making the computed copy the sheet instead of cloning it back (src/main.rs:200). No other reference to either array survives, so nothing observable differs.
- The `usize` generation counter is unbounded here. Its wrap after 2^64 generations is not modelled.
- Key events keep three modifier classes (none, Ctrl, other). Press, release and repeat kinds are not told apart, just as the source does not tell them apart.
