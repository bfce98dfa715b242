/** Optional values, used for the results the Rust code wraps in `Option` or `Result<_, anyhow::Error>`. */
module Wrappers {
  datatype Option<+T> = None | Some(value: T)
}
