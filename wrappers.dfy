/** Option datatype shared by the search engines: None stands for the
    source's `null` / "not found" results. */
module Wrappers {
  datatype Option<+T> = None | Some(value: T)
}
