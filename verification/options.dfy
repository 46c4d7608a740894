/** An optional value: an empty slot, or a step with no collision. */
module Options {

  datatype Option<+T> = None | Some(value: T)
}
