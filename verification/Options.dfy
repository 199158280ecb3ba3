/** A value that may be missing, and looking one up. */
module Options {
  datatype Option<T> = None | Some(value: T)

  function At<K, V>(m: map<K, V>, k: K): Option<V> {
    if k in m then Some(m[k]) else None
  }
}
