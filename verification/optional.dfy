/** The absent-or-present value used throughout the model in place of JavaScript's
    `null` / `undefined` results. */
module Optional {

  datatype Option<+T> = None | Some(value: T)
}
