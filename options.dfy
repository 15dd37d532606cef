/** An optional value, standing for Kotlin's nullable results. */
module Options {

  datatype Option<+T> = None | Some(value: T)

}
