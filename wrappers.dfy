/** Python's `None`-or-value, as the scraper uses it for every optional field. */
module Wrappers {
  datatype Option<+T> = None | Some(value: T)
}
