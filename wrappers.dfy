/** Option, the outcome of every parser in this model: `None` stands for the
    exception the JavaScript code would throw on malformed input. */
module Wrappers {

  datatype Option<+T> = None | Some(value: T)

}
