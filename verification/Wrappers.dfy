/** The optional value used wherever the server has std::optional, a nullable handler or an end iterator. */
module Wrappers {

  datatype Option<+T> = None | Some(value: T)
}
