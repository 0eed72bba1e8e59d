/** The optional value used wherever the source keeps `undefined` as a
    legitimate state (a memoised start node, a generator's current cell). */
module Wrappers {

  datatype Option<+T> = None | Some(value: T)
}
