/** The optional value the size humaniser returns: Python's implicit `None`
    when a loop runs off its end, or a value. */
module Wrappers {

  datatype Option<+T> = None | Some(value: T)

}
