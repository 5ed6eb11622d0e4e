/** Go's nil pointers, for the optional fields of request records and the
    key and signature arguments that the reward path passes as nil. */
module Options {

  datatype Option<+T> = None | Some(value: T)
}
