/**
 * Simplified-to-traditional conversion by dictionary substitution, longest phrase first,
 * with the dictionary fetched once into a module-level cache.
 */
module SimplifiedToTraditional {
  import opened Wrappers
  import opened Rewrite
  import opened Dictionary
  import opened Substitution
  import Sorting

  /**
   * `simplifiedToTraditional(text, dictionary?)`: the given dictionary, or the cached one
   * when none is given, applied entry by entry over the keys sorted longest first.
   */
  method Convert(cache: Cache<Dict>, text: string, dictionary: Option<Dict>) returns (r: string)
    ensures r == Substitute(text, dictionary.GetOr(cache.value))
  {
    if text == [] {
      return text;
    }
    var dict := dictionary.GetOr(cache.value);
    if |dict| == 0 {
      return text;
    }
    var sorted := SortedEntries(dict);
    r := text;
    var i := 0;
    while i < |sorted|
      invariant 0 <= i <= |sorted|
      invariant r == ApplyAll(text, Keep(sorted[..i]))
    {
      var (simplified, traditional) := sorted[i];
      assert sorted[..i + 1][..i] == sorted[..i];
      ghost var kept := Keep(sorted[..i]);
      if traditional != [] && simplified != traditional {
        assert Keep(sorted[..i + 1]) == kept + [sorted[i]];
        assert (kept + [sorted[i]])[..|kept|] == kept;
        r := ReplaceAll(r, simplified, traditional);
      } else {
        assert Keep(sorted[..i + 1]) == kept + [];
        assert kept + [] == kept;
      }
      i := i + 1;
    }
    assert sorted[..i] == sorted;
  }

  /**
   * `simplifiedToTraditionalAsync(text)`: empty text is returned before any load; otherwise
   * the dictionary is loaded (`fetched` is the fetch's outcome) and the cached one applied.
   */
  method ConvertAsync(cache: Cache<Dict>, fetched: Option<Dict>, text: string) returns (r: string)
    modifies cache
    ensures text == [] ==> r == text && cache.loaded == old(cache.loaded) && cache.value == old(cache.value)
    ensures text != [] ==> cache.value == old(cache.Effective(fetched))
    ensures text != [] ==> cache.loaded == (old(cache.loaded) || fetched.Some?)
    ensures text != [] ==> r == Substitute(text, cache.value)
  {
    if text == [] {
      return text;
    }
    var dict := cache.Load(fetched);
    r := Convert(cache, text, Some(dict));
  }

  /** A longer phrase wins over its characters: "头发" becomes "頭髮", not "头發". */
  lemma LongestFirst()
    ensures Substitute("头发", [("发", "發"), ("头发", "頭髮")]) == "頭髮"
  {
    var d: Dict := [("发", "發"), ("头发", "頭髮")];
    assert d[..1] == [("发", "發")];
    assert [("发", "發")][..0] == [];
    assert Sorting.SortDesc(d[..1], KeyLen) == [("发", "發")];
    assert KeyLen(("发", "發")) == 1 && KeyLen(("头发", "頭髮")) == 2;
    assert SortedEntries(d) == [("头发", "頭髮"), ("发", "發")];
    var sorted: Dict := [("头发", "頭髮"), ("发", "發")];
    assert sorted[..1] == [("头发", "頭髮")] && sorted[..1][..0] == [];
    assert Keep(sorted) == sorted;
    assert ApplyAll("头发", sorted[..1]) == ReplaceAll("头发", "头发", "頭髮");
    assert ReplaceAll("头发", "头发", "頭髮") == "頭髮";
    assert ReplaceAll("頭髮", "发", "發") == "頭髮";
  }

}
