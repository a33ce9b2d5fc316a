/** The Option type used for the script's "maybe missing" values and failures. */
module Optional {

  datatype Option<+T> = None | Some(value: T)
}
