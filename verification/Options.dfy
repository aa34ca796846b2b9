/** The usual "a value or nothing" type, and reading a finite map with nothing as the default. */
module Options {
  datatype Option<+T> = None | Some(value: T)
  {
    function GetOr(other: T): T {
      if Some? then value else other
    }
  }

  /** The maps differ at these keys at most. */
  ghost predicate AlikeOutside<K(!new), V>(a: map<K, V>, b: map<K, V>, keys: set<K>) {
    forall k :: k !in keys ==> Get(a, k) == Get(b, k)
  }

  function Get<K, V>(m: map<K, V>, k: K): Option<V> {
    if k in m then Some(m[k]) else None
  }
}
