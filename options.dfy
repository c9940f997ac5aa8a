/** The `T | undefined` results of both containers. */
module Options {

  /** The "absent" signal of `first`, `last`, `pop`, `at`, `delete` and `deleteAt`. */
  datatype Option<T> = None | Some(value: T)
}
