/** The optional value used for `Option<usize>` in the traced snapshots and for the result of a
    name lookup. */
module Options {

  datatype Option<+T> = None | Some(value: T)
}
