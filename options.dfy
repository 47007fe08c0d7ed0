/** The usual optional-value datatype, shared by the linkifier and the timeline cache. */
module Options {

  datatype Option<+T> = None | Some(value: T)
}
