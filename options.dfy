/** Values that may be missing: a null `std::string*` in the C++ class, a
    NULL `char*` in the two C libraries. */
module Options {

  datatype Option<+T> = None | Some(value: T)
}
