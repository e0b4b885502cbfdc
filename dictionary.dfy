/**
 * Dictionaries loaded from JSON and the module-level caches that hold them.
 *
 * A JSON object `{ "key": "value", ... }` is modelled by its entries in `Object.keys`
 * order, so that the stable length-descending sort over its keys is well defined.
 */
module Dictionary {
  import opened Wrappers
  import Sorting

  /**
   * A parsed JSON object: its entries in `Object.keys` order. `JSON.parse` keeps one
   * entry per key, holding the last value the file gives it, so the dictionaries the
   * loaders receive are taken to have distinct keys, and `Lookup` reads the only entry
   * of a key. On a list that does repeat a key, `Assign` gives the key its last value,
   * as `Object.assign` does.
   */
  type Dict = seq<(string, string)>

  function KeyLen(e: (string, string)): nat {
    |e.0|
  }

  /** `Object.keys(dict).sort((a, b) => b.length - a.length)`, each key with its value. */
  function SortedEntries(d: Dict): Dict {
    Sorting.SortDesc(d, KeyLen)
  }

  /** Every entry of the sorted list comes from the dictionary, and none is lost. */
  lemma SortedEntriesPermutes(d: Dict)
    ensures |SortedEntries(d)| == |d|
    ensures multiset(SortedEntries(d)) == multiset(d)
    ensures forall e :: e in SortedEntries(d) <==> e in d
  {
    Sorting.SortDescFacts(d, KeyLen);
    Sorting.SortDescLength(d, KeyLen);
    forall e ensures e in SortedEntries(d) <==> e in d {
      assert e in SortedEntries(d) <==> e in multiset(SortedEntries(d));
      assert e in d <==> e in multiset(d);
    }
  }

  /** `dict[key]`: the value of the first entry with that key. */
  function Lookup(d: Dict, key: string): Option<string> {
    if d == [] then None
    else if d[0].0 == key then Some(d[0].1)
    else Lookup(d[1..], key)
  }

  /** `dict[key] = value`: overwrites an existing key in place, or appends a new one. */
  function Put(d: Dict, key: string, value: string): (r: Dict)
    ensures |r| == |d| || |r| == |d| + 1
  {
    if d == [] then [(key, value)]
    else if d[0].0 == key then [(key, value)] + d[1..]
    else [d[0]] + Put(d[1..], key, value)
  }

  /** `Object.assign(target, source)`: the source's entries are put into the target in order. */
  function Assign(target: Dict, source: Dict): Dict {
    if source == [] then target
    else Put(Assign(target, source[..|source| - 1]), source[|source| - 1].0, source[|source| - 1].1)
  }

  lemma {:induction false} LookupPut(d: Dict, key: string, value: string, k: string)
    ensures Lookup(Put(d, key, value), k) == if k == key then Some(value) else Lookup(d, k)
  {
    if d != [] && d[0].0 != key {
      LookupPut(d[1..], key, value, k);
    }
  }

  /** The value a key gets from the last entry that sets it, as with repeated assignments. */
  function LastValue(d: Dict, key: string): Option<string> {
    if d == [] then None
    else if d[|d| - 1].0 == key then Some(d[|d| - 1].1)
    else LastValue(d[..|d| - 1], key)
  }

  /** After `Object.assign`, a key has the source's value if the source sets it, else the target's. */
  lemma {:induction false} LookupAssign(target: Dict, source: Dict, k: string)
    ensures Lookup(Assign(target, source), k)
            == if LastValue(source, k).Some? then LastValue(source, k) else Lookup(target, k)
  {
    if source != [] {
      var init, last := source[..|source| - 1], source[|source| - 1];
      LookupAssign(target, init, k);
      LookupPut(Assign(target, init), last.0, last.1, k);
    }
  }

  /**
   * The module-level cache of the simplified-to-traditional and redundancy passes:
   * `let dict = …; let dictionaryLoaded = false;` with a loader that replaces the
   * dictionary by the fetched one. The network fetch and JSON parse are the
   * parameter `fetched`: `Some(d)` for a response that was ok and parsed, `None` for
   * a failed response or a thrown error (which the loader catches).
   */
  class Cache<T> {
    var value: T
    var loaded: bool

    constructor (initial: T)
      ensures value == initial && !loaded
    {
      value := initial;
      loaded := false;
    }

    /** The loader: returns the cache once loaded, else tries the fetch and returns the cache. */
    method Load(fetched: Option<T>) returns (d: T)
      modifies this
      ensures d == value
      ensures old(loaded) ==> loaded && value == old(value)
      ensures !old(loaded) && fetched.Some? ==> loaded && value == fetched.value
      ensures !old(loaded) && fetched.None? ==> !loaded && value == old(value)
    {
      if loaded {
        return value;
      }
      if fetched.Some? {
        value := fetched.value;
        loaded := true;
      }
      d := value;
    }

    /** The dictionary a load with outcome `fetched` would return, without loading. */
    function Effective(fetched: Option<T>): (d: T)
      reads this
      ensures loaded ==> d == value
      ensures !loaded && fetched.Some? ==> d == fetched.value
      ensures !loaded && fetched.None? ==> d == value
    {
      if loaded then value else fetched.GetOr(value)
    }
  }

  /** Once loaded, every later load returns the same dictionary whatever the fetch would give. */
  method LoadIsSticky<T>(c: Cache<T>, first: Option<T>, second: Option<T>) returns (a: T, b: T)
    modifies c
    ensures first.Some? || old(c.loaded) ==> a == b && c.loaded
    ensures first.None? && !old(c.loaded) ==> a == old(c.value)
  {
    a := c.Load(first);
    b := c.Load(second);
  }
}
