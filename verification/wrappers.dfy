/** The optional value used wherever the chatbot has "nothing" (Python's None). */
module Wrappers {

  datatype Option<+T> = None | Some(value: T)
}
