/** The optional value used for searches that may find nothing
    (std::string::npos, a NULL player pointer, a NULL ExceptThis). */
module Wrappers {

  datatype Option<+T> = None | Some(value: T)

}
