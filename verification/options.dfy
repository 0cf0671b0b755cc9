/** An optional value: `None` where the source has no value (an unset
    `std::optional`, a call that returned normally), `Some` otherwise. */
module Options {

  datatype Option<+T> = None | Some(value: T)
}
