/** The usual Some/None wrapper, used for absent fields, the pending save slot
    and parse results. */
module Optional {

  datatype Option<+T> = None | Some(value: T)
}
