/** `DefaultMap`: a map whose `get` inserts a computed default on a miss. */
module DefaultMaps {
  import opened Wrappers

  /**
   * The stored entries are `Option`s: a key mapped to `None` models a key
   * whose stored value is `undefined`, which `get` treats like a missing key.
   */
  class DefaultMap<K(==,!new), V> {
    const getDefault: K -> V
    var entries: map<K, Option<V>>

    constructor(getDefault: K -> V, initial: map<K, Option<V>>)
      ensures this.getDefault == getDefault
      ensures entries == initial
    {
      this.getDefault := getDefault;
      entries := initial;
    }

    /** The value a `get` of `key` would return now, if it is stored. */
    function Stored(key: K): Option<V>
      reads this
    {
      if key in entries then entries[key] else None
    }

    /** A stored value is returned and nothing changes; otherwise the default
        is computed, stored and returned. Either way the key is afterwards
        stored with the returned value, so a second `get` returns it without
        computing the default again, and no other key changes. */
    method Get(key: K) returns (val: V)
      modifies this
      ensures old(Stored(key)).Some? ==> val == old(Stored(key)).value && entries == old(entries)
      ensures old(Stored(key)).None? ==> val == getDefault(key) && entries == old(entries)[key := Some(val)]
      ensures Stored(key) == Some(val)
      ensures forall k :: k != key ==> Stored(k) == old(Stored(k))
    {
      var stored := Stored(key);
      if stored.Some? {
        val := stored.value;
      } else {
        val := getDefault(key);
        entries := entries[key := Some(val)];
      }
    }
  }
}
