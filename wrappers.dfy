/** Optional values: `None` stands for the source's `std::nullopt`, a null
    pointer, or `npos`, as each member's documentation says. */
module Wrappers {

  datatype Option<+T> = None | Some(value: T)
}
