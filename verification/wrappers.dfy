/** Option and Result values for the lookups that can miss and the
    operations that can refuse. */
module Wrappers {

  /** `None` stands for JavaScript's `undefined`/`null` (and, for dates,
      the empty form field). */
  datatype Option<+T> = None | Some(value: T)

  /** `Err` carries the message the browser shows through `showError`; the
      state it would have changed is left as it was. */
  datatype Result<+T> = Ok(value: T) | Err(message: string)
}
