/** The optional value the organizer's None-returning functions produce. */
module Options {
  datatype Option<+T> = None | Some(value: T)
}
