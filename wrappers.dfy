/** Shared result wrapper: `None` stands for `std::string::npos`. */
module Wrappers {
  datatype Option<+T> = None | Some(value: T)
}
