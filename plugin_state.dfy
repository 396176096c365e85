/** `MinesweeperState`: the plugin's own phase. */
module PluginStates {

  datatype MinesweeperState = NewGame | Running

  /** The `#[default]` variant, the phase the plugin starts in. */
  const INITIAL_STATE: MinesweeperState := NewGame
}
