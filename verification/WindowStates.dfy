/** The states a window can be in, as Mir names them. */
module WindowStates {

  datatype WindowState =
    Unknown | Restored | Minimized | Maximized | VertMaximized | Fullscreen | HorizMaximized | Hidden
  {
    predicate Conceals() { Hidden? || Minimized? }
  }
}
