/** The Option type shared by the other modules: `None` stands for Python's `None`. */
module Wrappers {

  datatype Option<+T> = None | Some(value: T)

}
