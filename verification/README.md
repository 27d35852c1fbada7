# Game of Life on a torus — a Dafny model

This project models the core of a small Game of Life program. The core is
the game manager and the button controller:

- **`Life`** (`life.dfy`) holds the generation step. The grid is a
  `seq<seq<int>>` indexed `[x][y]`, like the manager's 40 x 30 array.
  Every cell's eight neighbours are read with wrapped coordinates from the
  old grid. The new grid is written into a copy. `Step` is the pure step.
  `UpdateGrid` is the manager's pair of nested loops, and it is proved
  equal to `Step`.
- **`LifeProperties`** (`life_properties.dfy`) holds properties of the
  step. The wrapped reads are the Moore neighbourhood on the torus. The
  origin counts the far corner as a neighbour. The all-dead grid is a fixed
  point. The blinker oscillates with period 2 on a 5 x 5 torus. Shifting
  the pattern by one column commutes with the step.
- **`GameManager`** (`manager.dfy`) holds the run/pause flags, the tracked
  tick timer and the snapshot save and load. The timer is the boolean
  `timerArmed`. A file system is a map from file name to `Snapshot`.
- **`Controller`** (`controller.dfy`) maps the four button labels to
  manager operations and status strings. `Run` replays a sequence of events
  (clicks, timer expiries, quit). Over `Run` the model proves two facts.
  First, every reachable state is valid. Second, save, then any events
  except another save, then load restores the saved grid and interval.

Python's `%` with a positive modulus agrees with Dafny's Euclidean `%`,
so `Wrap` uses `%` unchanged. `Step` requires a rectangular grid. This
stands for the fact that the manager's grid is a numpy array, which is
always rectangular.

Three facts of the code are easy to miss, and the model keeps them:

- A load makes no dimension check. The load itself accepts any rectangular
  grid, and there is no dimension-mismatch error. A grid smaller than
  40 x 30 makes the next frame fail, as described under "Left out".
- The "start" button calls `resume`, not `start`. So a fresh game ticks
  while `running` is still false. `StartButtonTicksWithoutRunning` shows
  this.
- `stop` clears `running` and cancels the timer but leaves `paused` as it
  was.

## Model

| member | source | states |
|---|---|---|
| Life.NextCell | game/manager.py:82-85 | On 0/1 cells the result is 0/1, and it is alive iff the count is 3 or the cell is alive with count 2 (B3/S23). Any other cell value is kept. |
| Life.Step | game/manager.py:64-87 | The new grid has the old grid's shape, so the width and height never change. |
| Life.StepRules | game/manager.py:82-85 | A dead cell with 3 neighbours is born. A live cell with 2 or 3 survives. A live cell with fewer than 2 or more than 3 dies. Every changed cell is such a death or birth. All counts are taken in the old grid. |
| Life.UpdateGrid | game/manager.py:64-87 | The nested y/x loops do these steps: copy the grid, read the eight wrapped neighbours from the old grid, overwrite only dying or newborn cells. The result equals `Step`. |
| LifeProperties.WrapAdjacent | game/manager.py:72-79 | `(i-1) % n`, `i % n` and `(i+1) % n` are the previous cell, the cell itself and the next cell on a ring of `n` cells. 0 wraps to `n-1` and `n-1` to 0. |
| LifeProperties.CountIsMooreNeighbourhood | game/manager.py:71-80 | The eight-term neighbour sum equals the sum over the eight torus neighbours, located without a remainder. |
| LifeProperties.OriginCountsFarCorner | game/manager.py:71-80 | On a torus of at least 3 x 3, changing cell (W-1, H-1) changes the count of (0, 0) by exactly the same amount. |
| LifeProperties.CountBounds | game/manager.py:71-80 | On a 0/1 grid a neighbour count lies in 0..8. |
| LifeProperties.StepKeepsBinary | game/manager.py:82-87 | A grid of 0/1 cells steps to a grid of 0/1 cells. |
| LifeProperties.AllDeadIsFixedPoint | game/manager.py:82-87 | A grid of dead cells is mapped to itself. |
| LifeProperties.BlinkerOscillates | game/manager.py:64-87 | On a 5 x 5 torus the horizontal three-cell row steps to the vertical one and back. The two differ, so the period is 2. |
| LifeProperties.StepCommutesWithShift | game/manager.py:71-80 | Stepping the grid shifted by one column equals shifting the stepped grid, so the torus has no edge. |
| GameManager.Init | game/manager.py:29-34 | A fresh manager is not running, paused, has no timer armed, and has interval 0.5 and the given 40 x 30 seed grid. It is valid. |
| GameManager.ScheduleTick | game/manager.py:55-58 | A timer is armed afterwards iff one was armed or the manager is not paused. Flags, grid and interval are unchanged. |
| GameManager.ScheduleIgnoresRunning | game/manager.py:55-58 | Scheduling gives the same result whatever the value of `running`. |
| GameManager.Start | game/manager.py:36-39 | Afterwards running, not paused, timer armed. Grid and interval are unchanged. |
| GameManager.Pause | game/manager.py:41-44 | Afterwards paused and no timer armed. `running`, grid and interval are unchanged. |
| GameManager.PauseIdempotent | game/manager.py:41-44 | Pausing twice equals pausing once. |
| GameManager.Resume | game/manager.py:46-48 | Afterwards not paused and timer armed. `running`, grid and interval are unchanged. |
| GameManager.PauseThenResume | game/manager.py:41-48 | For the tracked timer, pause then resume with no tick between equals a plain resume. The grid is unchanged. |
| GameManager.Stop | game/manager.py:50-53 | Afterwards not running and no timer armed. `paused`, grid and interval are unchanged. |
| GameManager.Tick | game/manager.py:60-62 | The grid becomes `Step` of the old grid. A timer is re-armed iff not paused. The flags and interval are unchanged. |
| GameManager.OperationsPreserveValid | game/manager.py:36-62 | Start, pause, resume, stop, tick and a successful load keep the grid rectangular and never leave the tracked timer armed while paused. |
| GameManager.SaveState | game/manager.py:89-95 | The named file afterwards holds the current grid and interval. Every other file is unchanged. No other file appears. |
| GameManager.LoadState | game/manager.py:97-101 | A missing file fails with `MissingFile` and a ragged grid fails with `NotAGrid`, in both directions. Otherwise grid and interval come from the file without a dimension check, and the flags and timer are untouched. |
| GameManager.SaveThenLoad | game/manager.py:89-101 | Loading a file just saved puts exactly the saved grid and interval into any manager, and changes nothing else. |
| Controller.HandleButtonClick | game/controller.py:17-28 | "start" unpauses and arms the timer, keeps `running`, and returns "". "pause" pauses, disarms and returns "". "save" writes the snapshot to game_state.json and returns the saved message, with the manager unchanged. "load" restores grid and interval with flags untouched and returns the loaded message, or raises for a missing or ragged file. Any other label returns "" and changes nothing. |
| Controller.Apply | game/ui.py:98-108 | An expiry of an armed timer steps the grid. An expiry with no timer armed changes nothing. Timer and quit events leave the files alone. Validity is kept. |
| Controller.Run | game/ui.py:98-122 | Every state reached from a valid state by any sequence of events is valid. |
| Controller.RunKeepsSaveFile | game/controller.py:20-28 | When game_state.json exists and holds a rectangular grid, events that include no save click never raise and leave it unchanged. |
| Controller.SaveLoadRoundTrip | game/manager.py:89-101 | Save, then any events without another save, then load: the load succeeds and restores the grid and interval saved. |
| Controller.StartButtonTicksWithoutRunning | game/controller.py:18-19 | From a fresh manager the start button arms the timer while `running` stays false. |
| Controller.PausedNeverTicks | game/manager.py:55-58 | In a valid paused system an expiry of the tracked timer changes nothing. |
| Controller.QuitCancelsTick | game/manager.py:50-53 | After quit, a timer expiry changes nothing, and quitting itself leaves the grid alone. |

## Left out

- Rendering, the event loop, hover colours, notification countdown and button hit-testing (game/ui.py) are left out: they are drawing and library calls. The only part kept is that quitting calls `stop`, as the `Quit` event.
- Object wiring (game/factory.py, main.py) and the unused JSON helpers (game/utils.py) are left out: neither holds logic.
- The random start-up fill is left out. `Init` takes any 40 x 30 grid of 0/1 cells as a parameter in place of the random draw.
- The singleton construction of the manager is left out. The model passes one manager value explicitly.
- Real timers are left out: asynchronous firing, races between a cancel and a firing tick, and the delay of `interval` seconds. A repeated resume starts a new timer without cancelling the old one, so several tick chains can run at once. The model tracks one timer only, as a boolean.
- JSON encoding, numpy dtype conversion and file-system write errors are left out. A file holds a `Snapshot` of grid and interval.
- A file lacking the `tick_interval` key is not modelled. In the code the grid would already be replaced when the key lookup raises, so such a load is not all-or-nothing.
- A stored empty list is not modelled as the code sees it. numpy makes it a one-dimensional array, so the next update fails to unpack its shape. The model treats it as a 0 x 0 grid that `Step` leaves unchanged.
- GameManager.Tick: does not state the delay before the timer fires, because the timer is a boolean.
- GameManager.PauseThenResume: holds for the tracked timer only. If a timer is pending, a plain resume starts a second tick chain without cancelling the first, while pause-then-resume leaves one chain. So the two differ in the program.
- Controller.PausedNeverTicks: holds for the tracked timer only. After the clicks "start", "start", "pause", the first timer is no longer tracked and is never cancelled. When it fires, `tick` steps the grid while the game is paused.
- Life.NeighbourCount: cells are signed 64-bit integers in the program, so a neighbour sum beyond 2^63 wraps there, and the rule then sees the wrapped count. The model adds unbounded integers. Loaded cells of that size are not modelled, and 0/1 grids are unaffected.
- Controller.Run: does not model the crash after a load of a grid narrower than 40 or shorter than 30. The render loop reads all 40 x 30 cells on every frame with no bound check, so the next frame raises an index error that nothing catches, and the program ends. `Run` keeps playing events after such a load.
- Controller.Run: keeps playing events after a `Quit`. The program's event loop calls `stop` on quit and then leaves the loop, so no later click reaches the controller. After the quit the model only has the tracked timer cancelled, which `QuitCancelsTick` states.
