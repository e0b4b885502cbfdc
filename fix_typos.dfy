/**
 * Typo correction by dictionary substitution. The dictionary is fetched once and merged
 * into a module-level object with `Object.assign`; the asynchronous pass skips empty and
 * identity corrections, the synchronous one applies every entry.
 */
module FixTypos {
  import opened Wrappers
  import opened Rewrite
  import opened Dictionary
  import opened Substitution
  import Sorting

  /** The module-level `typoDictionary` and its `dictionaryLoaded` flag. */
  class TypoCache {
    var dict: Dict
    var loaded: bool

    constructor ()
      ensures dict == [] && !loaded
    {
      dict := [];
      loaded := false;
    }

    /**
     * `loadTypoDictionary()`: once loaded, the cache; otherwise a successful fetch
     * (`fetched == Some(data)`) is merged into the cache and sets the flag, and a failed
     * one leaves both as they were.
     */
    method Load(fetched: Option<Dict>) returns (d: Dict)
      modifies this
      ensures d == dict
      ensures old(loaded) ==> loaded && dict == old(dict)
      ensures !old(loaded) && fetched.Some? ==> loaded && dict == Assign(old(dict), fetched.value)
      ensures !old(loaded) && fetched.None? ==> !loaded && dict == old(dict)
    {
      if loaded {
        return dict;
      }
      if fetched.Some? {
        dict := Assign(dict, fetched.value);
        loaded := true;
      }
      d := dict;
    }
  }

  /** Merged into the empty initial object, each key gets the value of its last entry in the file. */
  lemma FirstLoadLookup(source: Dict, k: string)
    ensures Lookup(Assign([], source), k) == LastValue(source, k)
  {
    LookupAssign([], source, k);
  }

  /** `fixTypos(text)`: empty text is returned before any load; then the loaded dictionary is applied. */
  method FixTypos(cache: TypoCache, fetched: Option<Dict>, text: string) returns (r: string)
    modifies cache
    ensures text == [] ==> r == text && cache.dict == old(cache.dict) && cache.loaded == old(cache.loaded)
    ensures text != [] ==> cache.loaded == (old(cache.loaded) || fetched.Some?)
    ensures text != [] && !old(cache.loaded) && fetched.Some? ==> cache.dict == Assign(old(cache.dict), fetched.value)
    ensures text != [] && (old(cache.loaded) || fetched.None?) ==> cache.dict == old(cache.dict)
    ensures text != [] ==> r == Substitute(text, cache.dict)
  {
    if text == [] {
      return text;
    }
    var dictionary := cache.Load(fetched);
    if |dictionary| == 0 {
      return text;
    }
    r := ApplyKept(text, SortedEntries(dictionary));
  }

  /** The replacement loop of `fixTypos`: each applicable entry in turn, the others skipped. */
  method ApplyKept(text: string, sorted: Dict) returns (r: string)
    ensures r == ApplyAll(text, Keep(sorted))
  {
    r := text;
    var i := 0;
    while i < |sorted|
      invariant 0 <= i <= |sorted|
      invariant r == ApplyAll(text, Keep(sorted[..i]))
    {
      var (typo, correction) := sorted[i];
      KeepStep(text, sorted, i);
      if correction != [] && typo != correction {
        r := ReplaceAll(r, typo, correction);
      }
      i := i + 1;
    }
    assert sorted[..i] == sorted;
  }

  /**
   * `fixTyposSync(text, dictionary?)`: the given dictionary, or the cached one, with every
   * entry applied; an entry with an empty correction deletes its typo.
   */
  method FixTyposSync(cache: TypoCache, text: string, dictionary: Option<Dict>) returns (r: string)
    ensures r == SubstituteEvery(text, dictionary.GetOr(cache.dict))
  {
    if text == [] {
      return text;
    }
    var dict := dictionary.GetOr(cache.dict);
    if |dict| == 0 {
      return text;
    }
    var sorted := SortedEntries(dict);
    r := text;
    var i := 0;
    while i < |sorted|
      invariant 0 <= i <= |sorted|
      invariant r == ApplyAll(text, sorted[..i])
    {
      assert sorted[..i + 1][..i] == sorted[..i];
      r := ReplaceAll(r, sorted[i].0, sorted[i].1);
      i := i + 1;
    }
    assert sorted[..i] == sorted;
  }

  /** The correction the sources name: "這件事很作崇" becomes "這件事很作祟". */
  lemma CorrectsZuoSui()
    ensures Substitute("這件事很作崇", [("作崇", "作祟")]) == "這件事很作祟"
  {
    var d: Dict := [("作崇", "作祟")];
    assert d[..0] == [];
    assert SortedEntries(d) == d;
    assert Keep(d) == d;
    assert ReplaceAll("這件事很作崇", "作崇", "作祟") == "這件事很作祟";
  }

  /** An empty correction is skipped by the asynchronous pass and deletes the typo in the synchronous one. */
  lemma EmptyCorrection()
    ensures Substitute("嗯好", [("嗯", "")]) == "嗯好"
    ensures SubstituteEvery("嗯好", [("嗯", "")]) == "好"
  {
    var d: Dict := [("嗯", "")];
    assert d[..0] == [];
    assert SortedEntries(d) == d;
    assert Keep(d) == [];
    assert ReplaceAll("嗯好", "嗯", "") == "好";
  }
}
