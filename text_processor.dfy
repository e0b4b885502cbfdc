/**
 * The orchestrator: `processText` runs the enabled passes over the text in a fixed
 * order, `preloadDictionaries` warms the three dictionary caches, and `FEATURES` is the
 * table the editor shows.
 */
module TextProcessor {
  import opened Wrappers
  import opened Dictionary
  import opened Substitution
  import RemoveTimestamps
  import RemoveSpaces
  import SimplifiedToTraditional
  import FixTypos
  import RemoveRedundancy
  import FixPunctuation
  import AddSpaces
  import SegmentParagraphs

  /** The seven `FeatureType` ids. */
  datatype FeatureType =
    | ToTraditional
    | AddSpacesToEnglish
    | CorrectTypos
    | DropRedundancy
    | CorrectPunctuation
    | Segment
    | DropTimestamps

  /** The string each feature is known by. */
  function Id(f: FeatureType): string {
    match f
    case ToTraditional => "simplified-to-traditional"
    case AddSpacesToEnglish => "add-spaces"
    case CorrectTypos => "fix-typos"
    case DropRedundancy => "remove-redundancy"
    case CorrectPunctuation => "fix-punctuation"
    case Segment => "segment-paragraphs"
    case DropTimestamps => "remove-timestamps"
  }

  /** Two features never share an id, so an id names one feature. */
  lemma IdsDistinct(f: FeatureType, g: FeatureType)
    ensures Id(f) == Id(g) <==> f == g
  {
    IdReadsBack(f);
    IdReadsBack(g);
  }

  /** The feature an id names, if any. */
  function FeatureOf(id: string): Option<FeatureType> {
    if id == "simplified-to-traditional" then Some(ToTraditional)
    else if id == "add-spaces" then Some(AddSpacesToEnglish)
    else if id == "fix-typos" then Some(CorrectTypos)
    else if id == "remove-redundancy" then Some(DropRedundancy)
    else if id == "fix-punctuation" then Some(CorrectPunctuation)
    else if id == "segment-paragraphs" then Some(Segment)
    else if id == "remove-timestamps" then Some(DropTimestamps)
    else None
  }

  lemma IdReadsBack(f: FeatureType)
    ensures FeatureOf(Id(f)) == Some(f)
  {
  }

  /** A row of the feature table; `icon` is optional in the source's interface; `caption` is the source's `label`, a reserved word here. */
  datatype Feature = Feature(id: FeatureType, caption: string, description: string, icon: Option<string>)

  const FEATURES: seq<Feature> := [
    Feature(ToTraditional, "簡體轉繁體", "將簡體中文轉換為繁體中文（台灣用字）", Some("🔄")),
    Feature(AddSpacesToEnglish, "英文加空白", "在中文與英文、數字之間自動加入空格", Some("␣")),
    Feature(CorrectTypos, "修正錯字", "根據字典修正常見的錯別字", Some("✏️")),
    Feature(DropRedundancy, "刪除贅字", "移除不必要的發語詞和重複用字", Some("🗑️")),
    Feature(CorrectPunctuation, "修正標點", "統一全形/半形標點符號，修正常見錯誤", Some("。")),
    Feature(Segment, "語義分段", "根據規則將文字適當分段", Some("¶")),
    Feature(DropTimestamps, "刪除時間戳", "移除影片字幕中的時間戳記", Some("⏱️"))
  ]

  /** The position of a feature's row in the table. */
  function RowOf(f: FeatureType): (i: nat)
    ensures i < |FEATURES| && FEATURES[i].id == f
  {
    match f
    case ToTraditional => 0
    case AddSpacesToEnglish => 1
    case CorrectTypos => 2
    case DropRedundancy => 3
    case CorrectPunctuation => 4
    case Segment => 5
    case DropTimestamps => 6
  }

  /** The table lists every feature, and no feature twice. */
  lemma FeaturesListEachOnce()
    ensures |FEATURES| == 7
    ensures forall f: FeatureType :: f in Listed()
    ensures forall i, j :: 0 <= i < j < |FEATURES| ==> FEATURES[i].id != FEATURES[j].id
  {
    forall f: FeatureType
      ensures f in Listed()
    {
      var i := RowOf(f);
      assert FEATURES[i].id == f;
    }
  }

  /** The ids the table lists. */
  function Listed(): set<FeatureType> {
    set i | 0 <= i < |FEATURES| :: FEATURES[i].id
  }

  // ---------------------------------------------------------------------------
  // processText

  /** The condition guarding `removeUnnecessarySpaces`. */
  predicate SpacesGate(enabled: set<FeatureType>) {
    |enabled| > 0 && (CorrectTypos in enabled || DropRedundancy in enabled || ToTraditional in enabled)
  }

  /** The size test in the gate is redundant: the spaces pass runs iff a dictionary feature is on. */
  lemma SpacesGateIff(enabled: set<FeatureType>)
    ensures SpacesGate(enabled) <==> CorrectTypos in enabled || DropRedundancy in enabled || ToTraditional in enabled
  {
    if CorrectTypos in enabled || DropRedundancy in enabled || ToTraditional in enabled {
      var f :| f in enabled && f in {CorrectTypos, DropRedundancy, ToTraditional};
      assert {f} <= enabled;
      assert |{f}| == 1;
    }
  }

  /** The three dictionary passes, in source order. */
  function Looked(text: string, enabled: set<FeatureType>, s2t: Dict, typos: Dict, lists: RemoveRedundancy.Lists): string {
    var converted := if ToTraditional in enabled then Substitute(text, s2t) else text;
    var corrected := if CorrectTypos in enabled then Substitute(converted, typos) else converted;
    if DropRedundancy in enabled then RemoveRedundancy.Spec(corrected, lists) else corrected
  }

  /** Every pass before segmentation, in source order and as written; the dictionaries are those the caches hold. */
  function Prepared(text: string, enabled: set<FeatureType>, s2t: Dict, typos: Dict, lists: RemoveRedundancy.Lists): string {
    var stamped := if DropTimestamps in enabled then RemoveTimestamps.SpecAsWritten(text) else text;
    var spaced := if SpacesGate(enabled) then RemoveSpaces.Spec(stamped) else stamped;
    var pruned := Looked(spaced, enabled, s2t, typos, lists);
    var punctuated := if CorrectPunctuation in enabled then FixPunctuation.FixPunctuationAsWritten(pruned) else pruned;
    if AddSpacesToEnglish in enabled then AddSpaces.AddSpacesAroundEnglish(punctuated) else punctuated
  }

  /** The text `processText` returns, given the dictionaries the caches hold afterwards. */
  function Pipeline(text: string, enabled: set<FeatureType>, s2t: Dict, typos: Dict, lists: RemoveRedundancy.Lists): string {
    var prepared := Prepared(text, enabled, s2t, typos, lists);
    if Segment in enabled then SegmentParagraphs.SegmentParagraphs(prepared, SegmentParagraphs.NO_OPTIONS) else prepared
  }

  /** `Prepared` with the corrected timestamp and punctuation passes, which keep blank lines. */
  function PreparedCorrected(text: string, enabled: set<FeatureType>, s2t: Dict, typos: Dict, lists: RemoveRedundancy.Lists): string {
    var stamped := if DropTimestamps in enabled then RemoveTimestamps.SpecCorrected(text) else text;
    var spaced := if SpacesGate(enabled) then RemoveSpaces.Spec(stamped) else stamped;
    var pruned := Looked(spaced, enabled, s2t, typos, lists);
    var punctuated := if CorrectPunctuation in enabled then FixPunctuation.FixPunctuationCorrected(pruned) else pruned;
    if AddSpacesToEnglish in enabled then AddSpaces.AddSpacesAroundEnglish(punctuated) else punctuated
  }

  /** `Pipeline` with every corrected pass: the text the program evidently means to return. */
  function PipelineCorrected(text: string, enabled: set<FeatureType>, s2t: Dict, typos: Dict, lists: RemoveRedundancy.Lists): string {
    var prepared := PreparedCorrected(text, enabled, s2t, typos, lists);
    if Segment in enabled then SegmentParagraphs.SegmentParagraphsCorrected(prepared, SegmentParagraphs.NO_OPTIONS) else prepared
  }

  /**
   * `processText(text, { enabledFeatures })`: each enabled pass in turn, as written; the caches of
   * the dictionary passes are loaded on their first non-empty input (`*Fetch` are the
   * fetch outcomes). The three caches are distinct module-level objects.
   */
  method ProcessText(s2t: Cache<Dict>, typos: FixTypos.TypoCache, redundancy: Cache<RemoveRedundancy.Lists>,
                     s2tFetch: Option<Dict>, typoFetch: Option<Dict>, redundancyFetch: Option<RemoveRedundancy.Lists>,
                     text: string, enabled: set<FeatureType>) returns (result: string)
    requires s2t as object != redundancy as object
    modifies s2t, typos, redundancy
    ensures result == Pipeline(text, enabled, s2t.value, typos.dict, redundancy.value)
    ensures ToTraditional !in enabled ==> s2t.value == old(s2t.value) && s2t.loaded == old(s2t.loaded)
    ensures CorrectTypos !in enabled ==> typos.dict == old(typos.dict) && typos.loaded == old(typos.loaded)
    ensures DropRedundancy !in enabled ==> redundancy.value == old(redundancy.value) && redundancy.loaded == old(redundancy.loaded)
    ensures s2t.value == old(s2t.value) || s2t.value == old(s2t.Effective(s2tFetch))
    ensures redundancy.value == old(redundancy.value) || redundancy.value == old(redundancy.Effective(redundancyFetch))
    ensures typos.dict == old(typos.dict) || (!old(typos.loaded) && typoFetch.Some? && typos.dict == Assign(old(typos.dict), typoFetch.value))
    ensures old(s2t.loaded) ==> s2t.loaded && s2t.value == old(s2t.value)
    ensures old(typos.loaded) ==> typos.loaded && typos.dict == old(typos.dict)
    ensures old(redundancy.loaded) ==> redundancy.loaded && redundancy.value == old(redundancy.value)
    ensures s2t.loaded ==> old(s2t.loaded) || s2tFetch.Some?
    ensures typos.loaded ==> old(typos.loaded) || typoFetch.Some?
    ensures redundancy.loaded ==> old(redundancy.loaded) || redundancyFetch.Some?
  {
    result := PrepareText(s2t, typos, redundancy, s2tFetch, typoFetch, redundancyFetch, text, enabled);
    if Segment in enabled {
      result := SegmentParagraphs.SegmentParagraphs(result, SegmentParagraphs.NO_OPTIONS);
    }
  }

  /** Steps 1 to 7 of `processText`: every enabled pass before segmentation. */
  method PrepareText(s2t: Cache<Dict>, typos: FixTypos.TypoCache, redundancy: Cache<RemoveRedundancy.Lists>,
                     s2tFetch: Option<Dict>, typoFetch: Option<Dict>, redundancyFetch: Option<RemoveRedundancy.Lists>,
                     text: string, enabled: set<FeatureType>) returns (result: string)
    requires s2t as object != redundancy as object
    modifies s2t, typos, redundancy
    ensures result == Prepared(text, enabled, s2t.value, typos.dict, redundancy.value)
    ensures ToTraditional !in enabled ==> s2t.value == old(s2t.value) && s2t.loaded == old(s2t.loaded)
    ensures CorrectTypos !in enabled ==> typos.dict == old(typos.dict) && typos.loaded == old(typos.loaded)
    ensures DropRedundancy !in enabled ==> redundancy.value == old(redundancy.value) && redundancy.loaded == old(redundancy.loaded)
    ensures s2t.value == old(s2t.value) || s2t.value == old(s2t.Effective(s2tFetch))
    ensures redundancy.value == old(redundancy.value) || redundancy.value == old(redundancy.Effective(redundancyFetch))
    ensures typos.dict == old(typos.dict) || (!old(typos.loaded) && typoFetch.Some? && typos.dict == Assign(old(typos.dict), typoFetch.value))
    ensures old(s2t.loaded) ==> s2t.loaded && s2t.value == old(s2t.value)
    ensures old(typos.loaded) ==> typos.loaded && typos.dict == old(typos.dict)
    ensures old(redundancy.loaded) ==> redundancy.loaded && redundancy.value == old(redundancy.value)
    ensures s2t.loaded ==> old(s2t.loaded) || s2tFetch.Some?
    ensures typos.loaded ==> old(typos.loaded) || typoFetch.Some?
    ensures redundancy.loaded ==> old(redundancy.loaded) || redundancyFetch.Some?
  {
    result := text;
    if DropTimestamps in enabled {
      result := RemoveTimestamps.RemoveTimestamps(result);
    }
    ghost var stamped := result;
    assert stamped == if DropTimestamps in enabled then RemoveTimestamps.SpecAsWritten(text) else text;
    if |enabled| > 0 && (CorrectTypos in enabled || DropRedundancy in enabled || ToTraditional in enabled) {
      result := RemoveSpaces.RemoveUnnecessarySpaces(result);
    }
    ghost var spaced := result;
    assert spaced == if SpacesGate(enabled) then RemoveSpaces.Spec(stamped) else stamped;
    result := DictionaryPasses(s2t, typos, redundancy, s2tFetch, typoFetch, redundancyFetch, result, enabled);
    ghost var pruned := result;
    if CorrectPunctuation in enabled {
      result := FixPunctuation.FixPunctuationAsWritten(result);
    }
    ghost var punctuated := result;
    if AddSpacesToEnglish in enabled {
      result := AddSpaces.AddSpacesAroundEnglish(result);
    }
    PreparedStages(text, enabled, s2t.value, typos.dict, redundancy.value, stamped, spaced, pruned, punctuated, result);
  }

  /** Steps 3 to 5 of `processText`: the passes that read a dictionary cache. */
  method DictionaryPasses(s2t: Cache<Dict>, typos: FixTypos.TypoCache, redundancy: Cache<RemoveRedundancy.Lists>,
                          s2tFetch: Option<Dict>, typoFetch: Option<Dict>, redundancyFetch: Option<RemoveRedundancy.Lists>,
                          text: string, enabled: set<FeatureType>) returns (result: string)
    requires s2t as object != redundancy as object
    modifies s2t, typos, redundancy
    ensures result == Looked(text, enabled, s2t.value, typos.dict, redundancy.value)
    ensures ToTraditional !in enabled ==> s2t.value == old(s2t.value) && s2t.loaded == old(s2t.loaded)
    ensures CorrectTypos !in enabled ==> typos.dict == old(typos.dict) && typos.loaded == old(typos.loaded)
    ensures DropRedundancy !in enabled ==> redundancy.value == old(redundancy.value) && redundancy.loaded == old(redundancy.loaded)
    ensures s2t.value == old(s2t.value) || s2t.value == old(s2t.Effective(s2tFetch))
    ensures redundancy.value == old(redundancy.value) || redundancy.value == old(redundancy.Effective(redundancyFetch))
    ensures typos.dict == old(typos.dict) || (!old(typos.loaded) && typoFetch.Some? && typos.dict == Assign(old(typos.dict), typoFetch.value))
    ensures old(s2t.loaded) ==> s2t.loaded && s2t.value == old(s2t.value)
    ensures old(typos.loaded) ==> typos.loaded && typos.dict == old(typos.dict)
    ensures old(redundancy.loaded) ==> redundancy.loaded && redundancy.value == old(redundancy.value)
    ensures s2t.loaded ==> old(s2t.loaded) || s2tFetch.Some?
    ensures typos.loaded ==> old(typos.loaded) || typoFetch.Some?
    ensures redundancy.loaded ==> old(redundancy.loaded) || redundancyFetch.Some?
  {
    result := text;
    if ToTraditional in enabled {
      result := SimplifiedToTraditional.ConvertAsync(s2t, s2tFetch, result);
    }
    ghost var converted := result;
    assert converted == if ToTraditional in enabled then Substitute(text, s2t.value) else text;
    if CorrectTypos in enabled {
      result := FixTypos.FixTypos(typos, typoFetch, result);
    }
    ghost var corrected := result;
    assert corrected == if CorrectTypos in enabled then Substitute(converted, typos.dict) else converted;
    if DropRedundancy in enabled {
      result := RemoveRedundancy.RemoveRedundancy(redundancy, redundancyFetch, result);
    }
    assert result == if DropRedundancy in enabled then RemoveRedundancy.Spec(corrected, redundancy.value) else corrected;
  }

  /** `Prepared`, stage by stage: what the method's intermediate results are checked against. */
  lemma PreparedStages(text: string, enabled: set<FeatureType>, s2t: Dict, typos: Dict, lists: RemoveRedundancy.Lists,
                       stamped: string, spaced: string, pruned: string, punctuated: string, prepared: string)
    requires stamped == if DropTimestamps in enabled then RemoveTimestamps.SpecAsWritten(text) else text
    requires spaced == if SpacesGate(enabled) then RemoveSpaces.Spec(stamped) else stamped
    requires pruned == Looked(spaced, enabled, s2t, typos, lists)
    requires punctuated == if CorrectPunctuation in enabled then FixPunctuation.FixPunctuationAsWritten(pruned) else pruned
    requires prepared == if AddSpacesToEnglish in enabled then AddSpaces.AddSpacesAroundEnglish(punctuated) else punctuated
    ensures Prepared(text, enabled, s2t, typos, lists) == prepared
  {
  }

  /** With no feature enabled no branch fires and the text comes back as it was. */
  lemma NothingEnabled(text: string, s2t: Dict, typos: Dict, lists: RemoveRedundancy.Lists)
    ensures Pipeline(text, {}, s2t, typos, lists) == text
    ensures PipelineCorrected(text, {}, s2t, typos, lists) == text
  {
  }

  /**
   * With punctuation fixing on, the program joins two paragraphs with a space, while the
   * corrected pipeline keeps the blank line between them.
   */
  lemma PunctuationParagraphs(s2t: Dict, typos: Dict, lists: RemoveRedundancy.Lists)
    ensures Pipeline("甲\n\n乙", {CorrectPunctuation}, s2t, typos, lists) == "甲。 乙。"
    ensures PipelineCorrected("甲\n\n乙", {CorrectPunctuation}, s2t, typos, lists) == "甲。\n\n乙。"
  {
    PunctuationOnly("甲\n\n乙", s2t, typos, lists);
    FixPunctuation.ParagraphsTest();
  }

  /** A feature outside the set has no effect: punctuation alone is exactly `fixPunctuation`, as written or corrected. */
  lemma PunctuationOnly(text: string, s2t: Dict, typos: Dict, lists: RemoveRedundancy.Lists)
    ensures Pipeline(text, {CorrectPunctuation}, s2t, typos, lists) == FixPunctuation.FixPunctuationAsWritten(text)
    ensures PipelineCorrected(text, {CorrectPunctuation}, s2t, typos, lists) == FixPunctuation.FixPunctuationCorrected(text)
  {
    var e: set<FeatureType> := {CorrectPunctuation};
    assert DropTimestamps !in e && ToTraditional !in e && CorrectTypos !in e && DropRedundancy !in e;
    assert AddSpacesToEnglish !in e && Segment !in e;
    assert !SpacesGate(e);
  }

  /** Two sets that agree on every guard before segmentation prepare the same text. */
  lemma SameGuards(text: string, e: set<FeatureType>, f: set<FeatureType>, s2t: Dict, typos: Dict, lists: RemoveRedundancy.Lists)
    requires forall g :: g != Segment ==> (g in e <==> g in f)
    requires SpacesGate(e) == SpacesGate(f)
    ensures Prepared(text, e, s2t, typos, lists) == Prepared(text, f, s2t, typos, lists)
  {
    assert DropTimestamps in e <==> DropTimestamps in f;
    assert ToTraditional in e <==> ToTraditional in f;
    assert CorrectTypos in e <==> CorrectTypos in f;
    assert DropRedundancy in e <==> DropRedundancy in f;
    assert CorrectPunctuation in e <==> CorrectPunctuation in f;
    assert AddSpacesToEnglish in e <==> AddSpacesToEnglish in f;
  }

  /** Segmentation is the last pass: with it on, the result is the segmentation of the rest. */
  lemma SegmentIsLast(text: string, enabled: set<FeatureType>, s2t: Dict, typos: Dict, lists: RemoveRedundancy.Lists)
    requires Segment in enabled
    ensures Pipeline(text, enabled, s2t, typos, lists)
         == SegmentParagraphs.SegmentParagraphs(Pipeline(text, enabled - {Segment}, s2t, typos, lists), SegmentParagraphs.NO_OPTIONS)
  {
    var rest := enabled - {Segment};
    SpacesGateIff(enabled);
    SpacesGateIff(rest);
    SameGuards(text, enabled, rest, s2t, typos, lists);
    assert Segment !in rest;
  }

  /**
   * The passes run in the fixed order whatever the order features were enabled in:
   * timestamps are removed before punctuation is fixed, and punctuation is fixed before
   * English is spaced.
   */
  lemma FixedOrder(text: string, s2t: Dict, typos: Dict, lists: RemoveRedundancy.Lists)
    ensures Pipeline(text, {CorrectPunctuation, DropTimestamps}, s2t, typos, lists)
         == FixPunctuation.FixPunctuationAsWritten(RemoveTimestamps.SpecAsWritten(text))
    ensures Pipeline(text, {AddSpacesToEnglish, CorrectPunctuation}, s2t, typos, lists)
         == AddSpaces.AddSpacesAroundEnglish(FixPunctuation.FixPunctuationAsWritten(text))
  {
    var e: set<FeatureType> := {CorrectPunctuation, DropTimestamps};
    assert ToTraditional !in e && CorrectTypos !in e && DropRedundancy !in e;
    assert AddSpacesToEnglish !in e && Segment !in e && !SpacesGate(e);
    var f: set<FeatureType> := {AddSpacesToEnglish, CorrectPunctuation};
    assert ToTraditional !in f && CorrectTypos !in f && DropRedundancy !in f;
    assert DropTimestamps !in f && Segment !in f && !SpacesGate(f);
  }

  /**
   * Turning on a dictionary feature also removes the unnecessary spaces, before the
   * dictionary is applied: typo correction alone is the substitution of the despaced text.
   */
  lemma TyposDespaceFirst(text: string, s2t: Dict, typos: Dict, lists: RemoveRedundancy.Lists)
    ensures Pipeline(text, {CorrectTypos}, s2t, typos, lists) == Substitute(RemoveSpaces.Spec(text), typos)
  {
    var e: set<FeatureType> := {CorrectTypos};
    SpacesGateIff(e);
    assert ToTraditional !in e && DropTimestamps !in e && DropRedundancy !in e;
    assert AddSpacesToEnglish !in e && Segment !in e && CorrectPunctuation !in e;
  }

  /** Without a dictionary feature the spaces pass does not run, whatever else is on. */
  lemma SpacesKeptWithoutDictionaries(text: string, enabled: set<FeatureType>, s2t: Dict, typos: Dict, lists: RemoveRedundancy.Lists)
    requires CorrectTypos !in enabled && DropRedundancy !in enabled && ToTraditional !in enabled
    ensures Pipeline(text, enabled, s2t, typos, lists) == Pipeline(text, enabled, [], [], lists)
    ensures DropTimestamps !in enabled && CorrectPunctuation !in enabled && AddSpacesToEnglish !in enabled && Segment !in enabled
            ==> Pipeline(text, enabled, s2t, typos, lists) == text
  {
  }

  // ---------------------------------------------------------------------------
  // preloadDictionaries

  /**
   * `preloadDictionaries()`: the three loaders run and every failure is swallowed, so the
   * call always completes; each cache ends up as its loader leaves it.
   */
  method PreloadDictionaries(s2t: Cache<Dict>, typos: FixTypos.TypoCache, redundancy: Cache<RemoveRedundancy.Lists>,
                             s2tFetch: Option<Dict>, typoFetch: Option<Dict>, redundancyFetch: Option<RemoveRedundancy.Lists>)
    requires s2t as object != redundancy as object
    modifies s2t, typos, redundancy
    ensures s2t.value == old(s2t.Effective(s2tFetch)) && s2t.loaded == (old(s2t.loaded) || s2tFetch.Some?)
    ensures redundancy.value == old(redundancy.Effective(redundancyFetch))
    ensures redundancy.loaded == (old(redundancy.loaded) || redundancyFetch.Some?)
    ensures typos.loaded == (old(typos.loaded) || typoFetch.Some?)
    ensures !old(typos.loaded) && typoFetch.Some? ==> typos.dict == Assign(old(typos.dict), typoFetch.value)
    ensures old(typos.loaded) || typoFetch.None? ==> typos.dict == old(typos.dict)
  {
    var a := s2t.Load(s2tFetch);
    var b := typos.Load(typoFetch);
    var c := redundancy.Load(redundancyFetch);
  }
}
