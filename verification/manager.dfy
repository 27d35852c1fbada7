/**
 * The game manager: the run/pause flags, the self-rescheduling tick timer,
 * the grid it advances, and saving/loading a snapshot of grid and interval.
 *
 * The one tracked timer is abstracted to a flag `timerArmed`: arming it
 * stands for creating and starting a one-shot timer of `interval` seconds
 * whose expiry runs `Tick`, cancelling it for disarming. The file system is
 * a map from file name to the snapshot written there.
 */
module GameManager {
  import opened Life

  /** The size the manager seeds its grid with: 40 cells along x, 30 along y. */
  const GridWidth: nat := 40
  const GridHeight: nat := 30
  /** Seconds between two ticks until a load says otherwise. */
  const DefaultInterval: real := 0.5

  datatype Manager = Manager(
    running: bool,
    paused: bool,
    grid: Grid,
    interval: real,
    timerArmed: bool)

  /** What a save writes and a load reads back: the grid and the tick interval. */
  datatype Snapshot = Snapshot(grid: Grid, interval: real)

  type FileStore = map<string, Snapshot>

  /** Why a load raises: no such file, or stored rows of unequal length (no 2-D array). */
  datatype LoadError = MissingFile | NotAGrid

  datatype LoadResult = Loaded(manager: Manager) | LoadFailed(error: LoadError)

  /** What every reachable manager satisfies: a rectangular grid, and the tracked timer not armed while paused. */
  predicate Valid(m: Manager) {
    IsRect(m.grid) && (m.timerArmed ==> !m.paused)
  }

  /** The random start-up fill: a 40 x 30 grid of 0/1 cells. */
  predicate IsSeedGrid(g: Grid) {
    IsRect(g) && Width(g) == GridWidth && Height(g) == GridHeight && IsBinary(g)
  }

  /** A fresh manager over a start-up grid; the random fill itself is the parameter `seed`. */
  function Init(seed: Grid): (m: Manager)
    requires IsSeedGrid(seed)
    ensures !m.running && m.paused && !m.timerArmed
    ensures m.interval == DefaultInterval && m.grid == seed
    ensures Valid(m)
  {
    Manager(false, true, seed, DefaultInterval, false)
  }

  /** Arms a new timer unless paused; `running` is never looked at. */
  function ScheduleTick(m: Manager): (r: Manager)
    ensures r.timerArmed == (m.timerArmed || !m.paused)
    ensures r.running == m.running && r.paused == m.paused
    ensures r.grid == m.grid && r.interval == m.interval
  {
    if !m.paused then m.(timerArmed := true) else m
  }

  function Start(m: Manager): (r: Manager)
    ensures r.running && !r.paused && r.timerArmed
    ensures r.grid == m.grid && r.interval == m.interval
  {
    ScheduleTick(m.(running := true, paused := false))
  }

  function Pause(m: Manager): (r: Manager)
    ensures r.paused && !r.timerArmed
    ensures r.running == m.running
    ensures r.grid == m.grid && r.interval == m.interval
  {
    m.(paused := true, timerArmed := false)
  }

  function Resume(m: Manager): (r: Manager)
    ensures !r.paused && r.timerArmed
    ensures r.running == m.running
    ensures r.grid == m.grid && r.interval == m.interval
  {
    ScheduleTick(m.(paused := false))
  }

  function Stop(m: Manager): (r: Manager)
    ensures !r.running && !r.timerArmed
    ensures r.paused == m.paused
    ensures r.grid == m.grid && r.interval == m.interval
  {
    m.(running := false, timerArmed := false)
  }

  /**
   * The armed timer expires and runs the tick: one generation step, then a
   * re-arm if (and only if) the manager is not paused. The expired timer is
   * no longer pending, so without a re-arm nothing is armed afterwards.
   */
  function Tick(m: Manager): (r: Manager)
    requires IsRect(m.grid)
    ensures r.grid == Step(m.grid)
    ensures r.timerArmed <==> !m.paused
    ensures r.running == m.running && r.paused == m.paused && r.interval == m.interval
  {
    ScheduleTick(m.(grid := Step(m.grid), timerArmed := false))
  }

  /** Writes the current grid and interval to `name`, replacing whatever was there. */
  function SaveState(m: Manager, files: FileStore, name: string): (r: FileStore)
    ensures name in r && r[name] == Snapshot(m.grid, m.interval)
    ensures forall n :: n in files && n != name ==> n in r && r[n] == files[n]
    ensures r.Keys == files.Keys + {name}
  {
    files[name := Snapshot(m.grid, m.interval)]
  }

  /**
   * Replaces grid and interval by the snapshot stored under `name`. No check
   * of the grid's dimensions against the start-up size is made; the flags
   * and the timer are left alone.
   */
  function LoadState(m: Manager, files: FileStore, name: string): (r: LoadResult)
    ensures name !in files <==> r == LoadFailed(MissingFile)
    ensures name in files && !IsRect(files[name].grid) <==> r == LoadFailed(NotAGrid)
    ensures r.Loaded? ==>
      && name in files
      && r.manager.grid == files[name].grid && r.manager.interval == files[name].interval
      && r.manager.running == m.running && r.manager.paused == m.paused
      && r.manager.timerArmed == m.timerArmed
  {
    if name !in files then LoadFailed(MissingFile)
    else if !IsRect(files[name].grid) then LoadFailed(NotAGrid)
    else Loaded(m.(grid := files[name].grid, interval := files[name].interval))
  }

  /** Scheduling is the same whatever `running` says: it never consults the flag. */
  lemma ScheduleIgnoresRunning(m: Manager, b: bool)
    ensures ScheduleTick(m.(running := b)) == ScheduleTick(m).(running := b)
  {
  }

  /** Every operation keeps a manager valid (a load only accepts rectangular grids). */
  lemma OperationsPreserveValid(m: Manager, files: FileStore, name: string)
    requires Valid(m)
    ensures Valid(Start(m)) && Valid(Pause(m)) && Valid(Resume(m)) && Valid(Stop(m))
    ensures Valid(Tick(m))
    ensures LoadState(m, files, name).Loaded? ==> Valid(LoadState(m, files, name).manager)
  {
  }

  /** Pausing twice is pausing once. */
  lemma PauseIdempotent(m: Manager)
    ensures Pause(Pause(m)) == Pause(m)
  {
  }

  /**
   * For the tracked timer, a pause followed by a resume with no tick between
   * is just a resume, and the grid is untouched.
   */
  lemma PauseThenResume(m: Manager)
    ensures Resume(Pause(m)) == Resume(m)
    ensures Resume(Pause(m)).grid == m.grid
  {
  }

  /**
   * Loading a file right after saving it restores the saved grid and
   * interval into any manager, leaving that manager's flags as they were.
   */
  lemma SaveThenLoad(m: Manager, m': Manager, files: FileStore, name: string)
    requires IsRect(m.grid)
    ensures LoadState(m', SaveState(m, files, name), name) == Loaded(m'.(grid := m.grid, interval := m.interval))
  {
  }
}
