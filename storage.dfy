/**
 * Browser `localStorage`: a string-to-string map. `Store` is its value;
 * `LocalStorage` is the one mutable object the handlers call
 * `getItem`, `setItem` and `removeItem` on.
 */
module Storage {
  import opened Wrappers

  type Store = map<string, string>

  /** `getItem(key)`: the stored value, or nothing (`null`) when the key is absent. */
  function GetItem(m: Store, key: string): (r: Option<string>)
    ensures r.Some? <==> key in m
    ensures r.Some? ==> r.value == m[key]
  {
    if key in m then Some(m[key]) else None
  }

  /** The key holds a non-empty string: JavaScript's `!!getItem(key)`. */
  predicate HasValue(m: Store, key: string)
    ensures HasValue(m, key) <==> GetItem(m, key).Some? && GetItem(m, key).value != ""
  {
    key in m && m[key] != ""
  }

  class LocalStorage {
    var items: Store

    constructor (initial: Store)
      ensures items == initial
    {
      items := initial;
    }

    /** `setItem(key, value)`: the key now holds value; every other key is untouched. */
    method SetItem(key: string, value: string)
      modifies this
      ensures items == old(items)[key := value]
    {
      items := items[key := value];
    }

    /** `removeItem(key)`: the key is gone; every other key is untouched. */
    method RemoveItem(key: string)
      modifies this
      ensures items == old(items) - {key}
    {
      items := items - {key};
    }
  }
}
