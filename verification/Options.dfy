/** An optional value: a missing key, an absent field, or a refusal. */
module Options {

  datatype Option<T> = None | Some(value: T)
}
