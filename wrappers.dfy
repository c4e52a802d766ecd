/** The optional value used where the C++ code returns `std::string::npos`
 *  or leaves a variable untouched. */
module Wrappers {
  datatype Option<T> = None | Some(value: T)
}
