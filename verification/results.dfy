/** Optional values and fallible results, the two wrappers the bridge's Rust code leans on
    (`Option<u16>`/`Option<bool>` fields of a mapping, `Result<Settings, ConfigError>`). */
module Results {

  /** A value that may be absent; `GetOr` is Rust's `unwrap_or`. */
  datatype Option<+T> = None | Some(value: T) {

    /** The carried value, or `default` when absent. */
    function GetOr(default: T): T {
      match this
      case Some(v) => v
      case None => default
    }
  }

  /** Either a successfully produced value or an error. */
  datatype Result<+T, +E> = Success(value: T) | Failure(error: E)
}
