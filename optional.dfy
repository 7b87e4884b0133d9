/** Python's `None`-or-value, for the commit id threaded through the rebuild and for a regex match. */
module Optional {
  datatype Option<+T> = None | Some(value: T)
}
