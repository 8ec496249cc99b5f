/** An optional value, for the command-line option that may be absent and the
    terminal read that may find no more input. */
module Options {

  datatype Option<+T> = None | Some(value: T)
}
