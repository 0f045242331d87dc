/** The Some/None datatype used where the engine can run out of random draws. */
module Optional {

  datatype Option<+T> = None | Some(value: T)
}
