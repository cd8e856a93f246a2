/** Option: a value that may be absent. In this model `None` stands for
    JavaScript's `undefined`, which an array read yields at a missing index. */
module Wrappers {

  datatype Option<+T> = None | Some(value: T)
}
