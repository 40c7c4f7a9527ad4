/** The optional value used wherever the scheduler may find nothing: a dictionary
    lookup of a missing key, a regular-expression search without a match. */
module Optional {
  datatype Option<T> = None | Some(value: T)
}
