/** The outcome of a query that `mixed_fem_space.py` answers only for
    supported configurations: a space asked for a degree it does not
    implement prints an error and yields nothing usable, which is modelled
    as `None`. */
module Options {

  datatype Option<+T> = None | Some(value: T)
}
