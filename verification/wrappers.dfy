/**
 * Absence of a value: the source's `undefined` and `null` (a failed `find`,
 * a `match` that found nothing, a missing detail field).
 */
module Wrappers {

  datatype Option<+T> = None | Some(value: T)
}
