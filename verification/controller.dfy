/**
 * The controller: the four button labels the interface sends, mapped to
 * manager operations and the status line shown to the user. Saving and
 * loading always use the one file name below.
 *
 * A failed load raises out of the click handler (nothing catches it), so a
 * click either returns a message or raises; `Run` plays a sequence of
 * events and stops at the first raise.
 */
module Controller {
  import opened Life
  import opened GameManager

  const SaveFile: string := "game_state.json"
  const SavedMessage: string := "Game state saved successfully!"
  const LoadedMessage: string := "Game state loaded successfully!"

  /** The manager together with the files it saves to and loads from. */
  datatype System = System(manager: Manager, files: FileStore)

  datatype Reply =
    | Returned(system: System, message: string)
    | Raised(system: System, error: LoadError)

  predicate ValidSystem(s: System) {
    Valid(s.manager)
  }

  function HandleButtonClick(s: System, button: string): (r: Reply)
    // "start" resumes: unpaused and armed, but `running` keeps its old value
    ensures button == "start" ==>
      && r.Returned? && r.message == ""
      && !r.system.manager.paused && r.system.manager.timerArmed
      && r.system.manager.running == s.manager.running
      && r.system.manager.grid == s.manager.grid && r.system.manager.interval == s.manager.interval
      && r.system.files == s.files
    ensures button == "pause" ==>
      && r.Returned? && r.message == ""
      && r.system.manager.paused && !r.system.manager.timerArmed
      && r.system.manager.running == s.manager.running
      && r.system.manager.grid == s.manager.grid && r.system.manager.interval == s.manager.interval
      && r.system.files == s.files
    ensures button == "save" ==>
      && r.Returned? && r.message == SavedMessage
      && r.system.manager == s.manager
      && SaveFile in r.system.files
      && r.system.files[SaveFile] == Snapshot(s.manager.grid, s.manager.interval)
      && r.system.files == s.files[SaveFile := r.system.files[SaveFile]]
    ensures button == "load" && SaveFile in s.files && IsRect(s.files[SaveFile].grid) ==>
      && r.Returned? && r.message == LoadedMessage
      && r.system.manager.grid == s.files[SaveFile].grid
      && r.system.manager.interval == s.files[SaveFile].interval
      && r.system.manager.running == s.manager.running
      && r.system.manager.paused == s.manager.paused
      && r.system.manager.timerArmed == s.manager.timerArmed
      && r.system.files == s.files
    ensures button == "load" && SaveFile !in s.files ==> r == Raised(s, MissingFile)
    ensures button == "load" && SaveFile in s.files && !IsRect(s.files[SaveFile].grid) ==> r == Raised(s, NotAGrid)
    // every other button is ignored
    ensures button !in {"start", "pause", "save", "load"} ==> r == Returned(s, "")
  {
    if button == "start" then
      Returned(s.(manager := Resume(s.manager)), "")
    else if button == "pause" then
      Returned(s.(manager := Pause(s.manager)), "")
    else if button == "save" then
      Returned(s.(files := SaveState(s.manager, s.files, SaveFile)), SavedMessage)
    else if button == "load" then
      match LoadState(s.manager, s.files, SaveFile)
      case Loaded(m) => Returned(s.(manager := m), LoadedMessage)
      case LoadFailed(e) => Raised(s, e)
    else
      Returned(s, "")
  }

  /** What can happen to the system: a button click, the armed timer expiring, or a stop on quit. */
  datatype Event = Click(button: string) | TimerFires | Quit

  /** One event; a timer that is not armed cannot expire, so then nothing happens. */
  function Apply(s: System, e: Event): (r: Reply)
    requires ValidSystem(s)
    ensures r.Returned? ==> ValidSystem(r.system)
    ensures e.TimerFires? && s.manager.timerArmed ==>
      r.Returned? && r.system.manager.grid == Step(s.manager.grid)
    ensures e.TimerFires? && !s.manager.timerArmed ==> r == Returned(s, "")
    ensures !e.Click? ==> r.Returned? && r.system.files == s.files
  {
    match e
    case Click(button) =>
      var r := HandleButtonClick(s, button);
      OperationsPreserveValid(s.manager, s.files, SaveFile);
      r
    case TimerFires =>
      if s.manager.timerArmed then Returned(s.(manager := Tick(s.manager)), "")
      else Returned(s, "")
    case Quit =>
      Returned(s.(manager := Stop(s.manager)), "")
  }

  /** Plays the events in order; a raise from a load ends the run with the system as it was then. */
  function Run(s: System, events: seq<Event>): (r: Reply)
    requires ValidSystem(s)
    ensures ValidSystem(r.system)
    decreases |events|
  {
    if |events| == 0 then Returned(s, "")
    else
      match Apply(s, events[0])
      case Returned(s', _) => Run(s', events[1..])
      case Raised(s', e) => Raised(s', e)
  }

  predicate NoSave(events: seq<Event>) {
    forall i :: 0 <= i < |events| ==> events[i] != Click("save")
  }

  /** With a rectangular grid in the save file, events that are not a save click never raise and leave that file as it is. */
  lemma {:induction false} RunKeepsSaveFile(s: System, events: seq<Event>)
    requires ValidSystem(s) && NoSave(events)
    requires SaveFile in s.files && IsRect(s.files[SaveFile].grid)
    ensures Run(s, events).Returned?
    ensures SaveFile in Run(s, events).system.files
    ensures Run(s, events).system.files[SaveFile] == s.files[SaveFile]
    decreases |events|
  {
    if |events| > 0 {
      var e := events[0];
      var r := Apply(s, e);
      assert e != Click("save");
      assert r.Returned? && SaveFile in r.system.files && r.system.files[SaveFile] == s.files[SaveFile];
      assert NoSave(events[1..]) by {
        forall i | 0 <= i < |events[1..]|
          ensures events[1..][i] != Click("save")
        {
          assert events[1..][i] == events[i + 1];
        }
      }
      RunKeepsSaveFile(r.system, events[1..]);
    }
  }

  /**
   * Save, then anything but another save, then load: the grid and the tick
   * interval are exactly those at the time of the save, and the load
   * reports success.
   */
  lemma SaveLoadRoundTrip(s: System, events: seq<Event>)
    requires ValidSystem(s) && NoSave(events)
    ensures var saved := HandleButtonClick(s, "save").system;
      var before := Run(saved, events).system;
      var after := HandleButtonClick(before, "load");
      && after.Returned? && after.message == LoadedMessage
      && after.system.manager.grid == s.manager.grid
      && after.system.manager.interval == s.manager.interval
  {
    var saved := HandleButtonClick(s, "save").system;
    RunKeepsSaveFile(saved, events);
  }

  /**
   * The start button resumes rather than starts: from a fresh manager it
   * arms the tick timer while `running` stays false.
   */
  lemma StartButtonTicksWithoutRunning(seed: Grid, files: FileStore)
    requires IsSeedGrid(seed)
    ensures var r := HandleButtonClick(System(Init(seed), files), "start");
      r.Returned? && !r.system.manager.running && r.system.manager.timerArmed
  {
  }

  /** The tracked timer never fires while paused: a valid paused system ignores its expiry. */
  lemma PausedNeverTicks(s: System)
    requires ValidSystem(s) && s.manager.paused
    ensures Apply(s, TimerFires) == Returned(s, "")
  {
  }

  /** After a quit the tracked timer is cancelled, so a later expiry changes nothing. */
  lemma QuitCancelsTick(s: System)
    requires ValidSystem(s)
    ensures var q := Apply(s, Quit).system;
      Apply(q, TimerFires) == Returned(q, "") && q.manager.grid == s.manager.grid
  {
  }
}
