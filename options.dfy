/** Optional values, as the model uses them for `null`/`undefined` results
    and for a partial operation that has no answer. */
module Options {

  datatype Option<+T> = None | Some(value: T)
}
