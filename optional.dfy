/** The Some/None value used where the script gets `undefined` or `null` back. */
module Optional {

  datatype Option<+T> = None | Some(value: T)

}
