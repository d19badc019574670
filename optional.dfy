/** The "no value" that the Go code signals with nil (an empty Min, Max, Peek or Get). */
module Optional {

  datatype Option<+T> = None | Some(value: T)

}
