/** The scheduling rules of `Plugin::build`: which system may run in which
    plugin phase and host state. The host's run state and pause state are
    reduced to whether each is the one the plugin was configured with. */
module Plugin {
  import opened Wrappers
  import opened PluginStates

  datatype System =
    | CreateBoard | Rescale | Input | RemoveCover
    | TileUncoverEventHandler | TileFlagEventHandler | GameEndLoop | ResetEventHandler

  /** `in_state(run_state)` and `in_state(pause_state)` of the host. */
  datatype HostState = HostState(runActive: bool, pauseActive: bool)

  /** The `run_if` conditions; `rescale` and the reset handler have none. */
  predicate MayRun(s: System, phase: MinesweeperState, host: HostState) {
    match s
    case CreateBoard => phase == NewGame && host.runActive
    case Input => phase == Running && host.runActive && !host.pauseActive
    case RemoveCover | TileUncoverEventHandler | TileFlagEventHandler | GameEndLoop =>
      phase == Running
    case Rescale | ResetEventHandler => true
  }

  /** The systems that read or write the board once it exists. */
  predicate IsGameSystem(s: System) {
    s.Input? || s.RemoveCover? || s.TileUncoverEventHandler? || s.TileFlagEventHandler? || s.GameEndLoop?
  }

  /** The phase of the next frame: the pending `NextState`, if any. */
  function NextPhase(phase: MinesweeperState, pending: Option<MinesweeperState>): MinesweeperState {
    match pending
    case Some(p) => p
    case None => phase
  }

  /** The board is built only while no game system may run, and no game
      system runs while the board may be built: the two never share a
      frame. */
  lemma BuildExcludesPlay(s: System, phase: MinesweeperState, host: HostState)
    requires IsGameSystem(s)
    ensures MayRun(CreateBoard, phase, host) ==> !MayRun(s, phase, host)
    ensures MayRun(s, phase, host) ==> phase == Running && !MayRun(CreateBoard, phase, host)
  {
  }

  /** In the initial phase only board construction (when the host runs),
      rescaling and the reset handler are scheduled. */
  lemma InitialPhase(s: System, host: HostState)
    ensures MayRun(s, INITIAL_STATE, host) <==>
              (s == CreateBoard && host.runActive) || s == Rescale || s == ResetEventHandler
  {
  }

  /** Input needs more than the handlers: the run state active and the
      pause state not; pausing stops input but not the handlers. */
  lemma InputGating(phase: MinesweeperState, host: HostState)
    ensures MayRun(Input, phase, host) ==>
              MayRun(TileUncoverEventHandler, phase, host) && MayRun(TileFlagEventHandler, phase, host)
    ensures host.pauseActive ==> !MayRun(Input, phase, host)
    ensures phase == Running ==> MayRun(TileUncoverEventHandler, phase, host)
  {
  }

  /** The reset handler runs in every phase; once a reset sets `NewGame`,
      the next frame builds a new board if the host runs, and no game
      system runs. Building sets `Running`, after which the board is not
      built again until the next reset. */
  lemma Lifecycle(phase: MinesweeperState, host: HostState, s: System)
    ensures MayRun(ResetEventHandler, phase, host)
    ensures var p := NextPhase(phase, Some(NewGame));
            MayRun(CreateBoard, p, host) == host.runActive && (IsGameSystem(s) ==> !MayRun(s, p, host))
    ensures !MayRun(CreateBoard, NextPhase(phase, Some(Running)), host)
  {
  }
}
