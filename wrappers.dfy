/** The "value or nothing" results the dungeon's accessors return. */
module Wrappers {

  /** None stands for the sentinel `null` the grid returns for a position
      outside it. */
  datatype Option<+T> = None | Some(value: T)
}
