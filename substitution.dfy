/**
 * Dictionary substitution, the algorithm shared by the simplified-to-traditional and
 * typo passes: the dictionary's keys are sorted longest first (stably), and each key in
 * turn has all its occurrences in the current text replaced by its value.
 */
module Substitution {
  import opened Rewrite
  import opened Dictionary

  /** An entry the asynchronous passes act on: `!value || key === value` skips the rest. */
  predicate Applicable(e: (string, string)) {
    e.1 != [] && e.0 != e.1
  }

  /** The entries of `es` that are applicable, in order. */
  function Keep(es: Dict): (r: Dict)
    ensures |r| <= |es|
    ensures forall e :: e in r ==> e in es && Applicable(e)
  {
    if es == [] then []
    else Keep(es[..|es| - 1]) + (if Applicable(es[|es| - 1]) then [es[|es| - 1]] else [])
  }

  /** Replaces every occurrence of each key by its value, one entry after the other. */
  function ApplyAll(text: string, es: Dict): string {
    if es == [] then text
    else ReplaceAll(ApplyAll(text, es[..|es| - 1]), es[|es| - 1].0, es[|es| - 1].1)
  }

  /**
   * The passes that skip inapplicable entries: empty text and an empty dictionary give the
   * text back; otherwise the applicable entries are applied longest key first.
   */
  function Substitute(text: string, dict: Dict): string {
    if text == [] || dict == [] then text
    else ApplyAll(text, Keep(SortedEntries(dict)))
  }

  /** The pass that applies every entry, an empty value deleting its key. */
  function SubstituteEvery(text: string, dict: Dict): string {
    if text == [] || dict == [] then text
    else ApplyAll(text, SortedEntries(dict))
  }

  /** One more entry of a list: applied when it is applicable, skipped otherwise. */
  lemma KeepStep(text: string, es: Dict, i: nat)
    requires i < |es|
    ensures ApplyAll(text, Keep(es[..i + 1]))
            == if Applicable(es[i]) then ReplaceAll(ApplyAll(text, Keep(es[..i])), es[i].0, es[i].1)
               else ApplyAll(text, Keep(es[..i]))
  {
    var kept := Keep(es[..i]);
    assert es[..i + 1][..i] == es[..i];
    if Applicable(es[i]) {
      assert Keep(es[..i + 1]) == kept + [es[i]];
      assert (kept + [es[i]])[..|kept|] == kept;
    } else {
      assert Keep(es[..i + 1]) == kept + [];
      assert kept + [] == kept;
    }
  }

  /** Skipping an entry whose value equals its key changes nothing. */
  lemma {:induction false} KeepIsHarmless(text: string, es: Dict)
    requires forall e :: e in es ==> e.1 != []
    ensures ApplyAll(text, Keep(es)) == ApplyAll(text, es)
  {
    if es != [] {
      var init, last := es[..|es| - 1], es[|es| - 1];
      assert forall e :: e in init ==> e in es;
      KeepIsHarmless(text, init);
      var x := ApplyAll(text, init);
      assert ApplyAll(text, es) == ReplaceAll(x, last.0, last.1);
      if Applicable(last) {
        var k := Keep(init) + [last];
        assert Keep(es) == k;
        assert k[..|k| - 1] == Keep(init);
        assert ApplyAll(text, k) == ReplaceAll(ApplyAll(text, Keep(init)), last.0, last.1);
      } else {
        assert Keep(es) == Keep(init) + [];
        assert Keep(init) + [] == Keep(init);
        assert last.0 == last.1;
        ReplaceByItself(x, last.0, 0);
        assert ReplaceAll(x, last.0, last.1) == x[0..] == x;
      }
    }
  }

  /** The two forms agree on every dictionary whose values are all non-empty. */
  lemma SubstituteEveryAgrees(text: string, dict: Dict)
    requires forall e :: e in dict ==> e.1 != []
    ensures SubstituteEvery(text, dict) == Substitute(text, dict)
  {
    SortedEntriesPermutes(dict);
    KeepIsHarmless(text, SortedEntries(dict));
  }

  /** Entries that map a key to a value of the same length keep the text's length. */
  lemma {:induction false} ApplyAllSameLength(text: string, es: Dict)
    requires forall e :: e in es ==> 0 < |e.0| == |e.1|
    ensures |ApplyAll(text, es)| == |text|
  {
    if es != [] {
      var init := es[..|es| - 1];
      assert forall e :: e in init ==> e in es;
      ApplyAllSameLength(text, init);
      ReplaceAllSameLength(ApplyAll(text, init), es[|es| - 1].0, es[|es| - 1].1);
    }
  }

  /** A character-for-character (or phrase-for-equal-length-phrase) dictionary keeps the length. */
  lemma SubstituteSameLength(text: string, dict: Dict)
    requires forall e :: e in dict ==> 0 < |e.0| == |e.1|
    ensures |Substitute(text, dict)| == |text|
  {
    if text != [] && dict != [] {
      SortedEntriesPermutes(dict);
      ApplyAllSameLength(text, Keep(SortedEntries(dict)));
    }
  }

  /** Entries that never lengthen their match never lengthen the text. */
  lemma {:induction false} ApplyAllNotLonger(text: string, es: Dict)
    requires forall e :: e in es ==> |e.1| <= |e.0|
    ensures |ApplyAll(text, es)| <= |text|
  {
    if es != [] {
      var init := es[..|es| - 1];
      assert forall e :: e in init ==> e in es;
      ApplyAllNotLonger(text, init);
      ReplaceAllNotLonger(ApplyAll(text, init), es[|es| - 1].0, es[|es| - 1].1);
    }
  }

  /** Entries none of whose keys occur in the text leave it unchanged. */
  lemma {:induction false} ApplyAllAbsent(text: string, es: Dict)
    requires forall e :: e in es ==> !Contains(text, e.0)
    ensures ApplyAll(text, es) == text
  {
    if es != [] {
      var init, last := es[..|es| - 1], es[|es| - 1];
      assert forall e :: e in init ==> e in es;
      ApplyAllAbsent(text, init);
      assert OccursAt(text, 0, []);
      assert last.0 != [];
      ReplaceAllAbsent(text, last.0, last.1);
    }
  }

  /** If no key of the dictionary occurs in the text, the text comes back unchanged. */
  lemma SubstituteAbsent(text: string, dict: Dict)
    requires forall e :: e in dict ==> !Contains(text, e.0)
    ensures Substitute(text, dict) == text
    ensures SubstituteEvery(text, dict) == text
  {
    SortedEntriesPermutes(dict);
    ApplyAllAbsent(text, Keep(SortedEntries(dict)));
    ApplyAllAbsent(text, SortedEntries(dict));
  }

  /** Applying two lists of entries one after the other is applying their concatenation. */
  lemma {:induction false} ApplyAllConcat(text: string, a: Dict, b: Dict)
    ensures ApplyAll(text, a + b) == ApplyAll(ApplyAll(text, a), b)
    decreases |b|
  {
    if b == [] {
      assert a + b == a;
    } else {
      var init := b[..|b| - 1];
      assert (a + b)[..|a + b| - 1] == a + init;
      ApplyAllConcat(text, a, init);
    }
  }
}
