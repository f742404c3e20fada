/** The nullable value of the page: `number | null` becomes `Option<int>`. */
module Wrappers {

  datatype Option<+T> = None | Some(value: T)
}
