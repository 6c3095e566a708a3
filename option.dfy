/** An optional value: JavaScript's `string | undefined`, and a user with no active month. */
module Optional {

  datatype Option<T> = None | Some(value: T)
}
