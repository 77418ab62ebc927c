/** The usual optional value, used for the writer's optional source buffer and issued write. */
module Opt {
  datatype Option<+T> = None | Some(value: T)
}
