/** The optional value the catalog loader hands to the filter: `None` when the
    catalog file could not be read or parsed, `Some(rows)` otherwise. */
module Wrappers {

  datatype Option<+T> = None | Some(value: T)
}
