/** The absent-or-present values the page script works with: `null` from
    `getAttribute`, `localStorage.getItem` and `getElementById`. */
module Wrappers {

  datatype Option<+T> = None | Some(value: T)

}
