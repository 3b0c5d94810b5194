/** The browser's durable key-value store for the page's origin, seen as an
    immutable map from key to stored string. The store IS the watchlist:
    each entry maps a movie identifier to its display title. */
module Storage {
  import opened Wrappers

  type Store = map<string, string>

  /** `localStorage.getItem(key)`: the stored string, or null (None). */
  function GetItem(store: Store, key: string): (r: Option<string>)
    ensures r.Some? <==> key in store
    ensures r.Some? ==> r.value == store[key]
  {
    if key in store then Some(store[key]) else None
  }

  /** The source tests membership with the truthiness of `getItem`, so a key
      stored with an empty title counts as absent. */
  predicate InWatchlist(store: Store, key: string) {
    key in store && store[key] != ""
  }

  /** `localStorage.setItem(key, value)`. */
  function SetItem(store: Store, key: string, value: string): (r: Store)
    ensures r.Keys == store.Keys + {key}
    ensures r[key] == value
    ensures forall k :: k in store && k != key ==> r[k] == store[k]
  {
    store[key := value]
  }

  /** `localStorage.removeItem(key)`; removing an absent key changes nothing. */
  function RemoveItem(store: Store, key: string): (r: Store)
    ensures r.Keys == store.Keys - {key}
    ensures forall k :: k in r ==> r[k] == store[k]
    ensures key !in store ==> r == store
  {
    store - {key}
  }

  /** True iff `keys` lists every key of the store exactly once, as
      `Object.keys(localStorage)` does, in some order, for keys that are not
      built-in property names of the storage object. */
  predicate IsEnumeration(keys: seq<string>, store: Store) {
    && (forall i, j :: 0 <= i < j < |keys| ==> keys[i] != keys[j])
    && (forall k :: k in keys ==> k in store)
    && (forall k :: k in store ==> k in keys)
  }

  /** A duplicate-free sequence has as many distinct elements as positions. */
  lemma {:induction false} DistinctCardinality(keys: seq<string>)
    requires forall i, j :: 0 <= i < j < |keys| ==> keys[i] != keys[j]
    ensures |set k | k in keys| == |keys|
  {
    if keys != [] {
      var rest := keys[1..];
      DistinctCardinality(rest);
      assert (set k | k in keys) == (set k | k in rest) + {keys[0]};
      assert keys[0] !in rest;
    }
  }

  /** An enumeration of the store has exactly one position per stored key. */
  lemma EnumerationLength(keys: seq<string>, store: Store)
    requires IsEnumeration(keys, store)
    ensures |keys| == |store|
  {
    DistinctCardinality(keys);
    assert (set k | k in keys) == store.Keys;
  }
}
