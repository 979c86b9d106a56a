/** Identifiers and the possibly-absent value shared by every module of the model. */
module Base {

  /** A document identifier (a database ObjectId), abstracted to a natural number. */
  type Id = nat

  /**
   * A value that may be absent: `undefined` or `null` in the JavaScript code. Comparisons
   * built on it treat `null` like `undefined`, although JavaScript's `null >= 0` holds; the
   * fields compared this way are assumed never to hold `null`.
   */
  datatype Option<T> = None | Some(value: T) {

    /** The carried value, or `default` when absent. */
    function GetOr(default: T): T {
      match this
      case Some(v) => v
      case None => default
    }
  }

  /** The value a map holds for a key, absent when the key is not there (`obj[key]`). */
  function Lookup<K, V>(m: map<K, V>, k: K): (r: Option<V>)
    ensures r.Some? <==> k in m
    ensures r.Some? ==> r.value == m[k]
  {
    if k in m then Some(m[k]) else None
  }
}
