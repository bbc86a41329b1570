/** The optional value the resolver returns: `None` stands for the source's `null`. */
module Options {

  datatype Option<+T> = None | Some(value: T)
}
