/** Option and Result values for the nullable returns and exceptions of the system. */
module Wrappers {
  datatype Option<T> = None | Some(value: T)

  datatype Result<T, E> = Ok(value: T) | Err(error: E)

  /** `Map.getOrDefault` of the Java collections. */
  function GetOrDefault<K, V>(m: map<K, V>, k: K, default: V): V
  {
    if k in m then m[k] else default
  }
}
