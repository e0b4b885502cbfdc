# manuscript-editor: the rewrite pipeline, in Dafny

This project models the core of manuscript-editor, a web editor for Chinese manuscripts.
Its `processText` pipeline takes a text and a set of enabled features and runs up to eight
string-to-string passes over it, always in the same order:

1. remove timestamps;
2. remove unnecessary spaces between ideographs;
3. convert simplified characters to traditional ones;
4. correct typos;
5. remove redundant words;
6. fix punctuation;
7. add spaces between Chinese and Latin text;
8. segment paragraphs.

Passes 3 to 5 read dictionaries that are fetched once into module-level caches. The model
also covers the small pure helpers around the editor: diff statistics and segment merging,
text statistics and export file names, the processing history kept in browser storage, and
the dictionary path.

Each regular-expression replacement is an explicit matcher: a function from a string and
a position to an optional hit. A generic driver, `Rewrite.ReplaceGlobal`, gives it
JavaScript's `/g` semantics: leftmost, non-overlapping, never rescanning replaced text.
`split`, `join`, `trim` and JavaScript's `\s` are modelled the same way, in modules `Rewrite`
and `Chars`.

Dictionaries are sequences of key/value pairs, so that the stable length-descending key
sort is well defined. The three ideograph ranges of the source are separate predicates in
`Chars`:

- U+4E00–U+9FA5;
- U+4E00–U+9FFF;
- U+4E00–U+9FFF together with U+3400–U+4DBF.

How each part of the source is modelled:

- Loops that update variables become methods proved equal to a specification function:
  - the fixpoint loop of `removeUnnecessarySpaces`;
  - the timestamp pattern loops;
  - the dictionary loops;
  - the dialogue and sentence loops of `segmentParagraphs`;
  - the counter and merge loops of `diffUtils`.
- Each dictionary cache is a class whose `Load` takes the fetch outcome as an `Option`.
- The history store is a class holding what storage has under the history key.
- Everything else is functions and lemmas.

Five places where the code does not do what it evidently means are listed under
"## Findings". For each one the model keeps both versions:

- the code as written, with a lemma that shows the discrepancy;
- the corrected behaviour, with its intended property proved.

`TextProcessor.ProcessText` runs every pass as written, so its result is what the program returns. The corrected passes are composed separately, in `TextProcessor.PipelineCorrected`.

`AddSpaces.AddSpacesAroundEnglish` keeps its last step, `/\s{2,}/g` → `' '`, exactly as
written. That step also squeezes line breaks. So with that feature enabled, paragraphs
still end up on one line, in the corrected pipeline as well, where the punctuation pass keeps them apart.

## Model

| member | source | states |
|---|---|---|
| TextProcessor.IdsDistinct | lib/textProcessor.ts:18-25 | the seven feature ids are pairwise distinct, so an id names exactly one feature |
| TextProcessor.RowOf | lib/textProcessor.ts:133-176 | every feature has a row in `FEATURES` carrying its id |
| TextProcessor.FeaturesListEachOnce | lib/textProcessor.ts:133-176 | `FEATURES` has seven rows, lists every `FeatureType` id, and no id twice |
| TextProcessor.SpacesGateIff | lib/textProcessor.ts:56-63 | the spaces pass runs iff typo correction, redundancy removal or simplified-to-traditional is enabled (the size test is redundant) |
| TextProcessor.ProcessText | lib/textProcessor.ts:39-106 | the result is `Pipeline` over the enabled set: the passes as written, in the fixed order, over the dictionaries the caches hold afterwards; a disabled dictionary feature leaves its cache untouched; the simplified-to-traditional and redundancy caches each stay or become what their load with the given fetch outcome gives; the typo cache stays, or on a first successful load becomes the fetched dictionary merged in with `Object.assign`; a loaded flag is never cleared, and is set only by a successful fetch |
| TextProcessor.PrepareText | lib/textProcessor.ts:51-88 | every enabled pass before segmentation, as written and in source order, gives `Prepared` over the dictionaries the caches hold afterwards; the caches change only as `ProcessText` states |
| TextProcessor.DictionaryPasses | lib/textProcessor.ts:65-78 | the three dictionary passes, each run only when enabled, each loading its cache on first non-empty input |
| TextProcessor.NothingEnabled | lib/textProcessor.ts:45-101 | with an empty enabled set no branch fires and the text comes back unchanged, in the program's pipeline and in the corrected one |
| TextProcessor.PunctuationOnly | lib/textProcessor.ts:80-83 | with only punctuation enabled the result is exactly `fixPunctuation(text)` as written, and the corrected pipeline gives the corrected pass: absent features have no effect |
| TextProcessor.PunctuationParagraphs | lib/textProcessor.ts:80-83 | with punctuation fixing on, `processText` turns "甲\n\n乙" into "甲。 乙。", while the corrected pipeline keeps the blank line and gives "甲。\n\n乙。" |
| TextProcessor.SameGuards | lib/textProcessor.ts:51-88 | the text before segmentation depends only on which features are members of the set, not on how the set was built |
| TextProcessor.SegmentIsLast | lib/textProcessor.ts:90-93 | with segmentation enabled the result is `segmentParagraphs` of what the other enabled passes produce |
| TextProcessor.FixedOrder | lib/textProcessor.ts:51-88 | timestamps are removed before punctuation is fixed, and punctuation is fixed before spaces are added, whatever the insertion order |
| TextProcessor.TyposDespaceFirst | lib/textProcessor.ts:56-73 | typo correction alone first removes unnecessary spaces, then applies the typo dictionary |
| TextProcessor.SpacesKeptWithoutDictionaries | lib/textProcessor.ts:56-63 | without a dictionary feature the dictionaries are irrelevant and the spaces pass does not run |
| TextProcessor.PreloadDictionaries | lib/textProcessor.ts:111-121 | the three loaders run and always complete; each cache ends in the state its loader leaves it in for the given fetch outcome |
| RemoveTimestamps.RemoveTimestamps | lib/processors/removeTimestamps.ts:6-62 | the two pattern loops and the clean-up compute `removeTimestamps` as written (`SpecAsWritten`) |
| RemoveTimestamps.DeletePatterns | lib/processors/removeTimestamps.ts:42-45 | the loop deletes the ten patterns one after the other, in the order they are listed |
| RemoveTimestamps.CleanUp | lib/processors/removeTimestamps.ts:52-61 | the clean-up replacements and the trim compute the clean-up as written, `TidyAsWritten`, whose `\s` also matches line breaks |
| RemoveTimestamps.SpecShape | lib/processors/removeTimestamps.ts:7-61 | empty text comes back unchanged and has no timestamp; the output is trimmed and never longer than the input, in both versions |
| RemoveTimestamps.NoTimestampsNoDeletion | lib/processors/removeTimestamps.ts:12-34 | when `hasTimestamps` is false, the ten deletion patterns leave the text unchanged |
| RemoveTimestamps.HasTimestamps | lib/processors/removeTimestamps.ts:67-84 | empty text has no timestamp; otherwise one of the ten patterns matches somewhere |
| RemoveTimestamps.TimestampsDeleted | lib/processors/removeTimestamps.ts:67-84 | `hasTimestamps` holds exactly when the ten deletions of `removeTimestamps` change the text |
| RemoveTimestamps.NoDigitsKeep | lib/processors/removeTimestamps.ts:12-50 | text without digits is untouched by every timestamp pattern and by the bare-clock rule |
| RemoveTimestamps.BracketedExample | lib/processors/removeTimestamps.ts:14-61 | `"[00:01:23] 大家好"` becomes `"大家好"`, as written and corrected |
| RemoveTimestamps.BareClockKeepsSpace | lib/processors/removeTimestamps.ts:39-50 | a bare `1:23` between words is deleted and the whitespace before it is kept |
| RemoveTimestamps.BareClockNeedsSpace | lib/processors/removeTimestamps.ts:39 | the bare-clock rule never matches at a non-whitespace character past the start of the text: it needs whitespace before the clock |
| RemoveTimestamps.CleanTextUnchanged | lib/processors/removeTimestamps.ts:54-61 | corrected (`[ \t]` in place of `\s`): clean text comes back unchanged, blank lines included: trimmed, with no digits, blanks or triple line breaks |
| RemoveTimestamps.KeepsParagraphs | lib/processors/removeTimestamps.ts:55-59 | corrected (`[ \t]` in place of `\s`): two prose paragraphs separated by a blank line come back unchanged |
| RemoveTimestamps.AsWrittenJoinsParagraphs | lib/processors/removeTimestamps.ts:55-56 | as written, the multiline `^\s+` deletes the blank line between two paragraphs |
| RemoveSpaces.RemoveUnnecessarySpaces | lib/processors/removeSpaces.ts:5-26 | the `while` loop computes `Spec`, the passes run until one changes nothing |
| RemoveSpaces.PassShrinks | lib/processors/removeSpaces.ts:18-22 | a pass that changes the text makes it strictly shorter and removes only whitespace (the loop's termination measure) |
| RemoveSpaces.SettleIsStable | lib/processors/removeSpaces.ts:13-23 | the result is a fixpoint: one more pass changes nothing |
| RemoveSpaces.SpecKeepsText | lib/processors/removeSpaces.ts:13-23 | only whitespace is removed, so the output is never longer than the input |
| RemoveSpaces.SpecIdempotent | lib/processors/removeSpaces.ts:13-23 | running the pass twice is running it once |
| RemoveSpaces.SpecProperties | lib/processors/removeSpaces.ts:18-22 | no whitespace remains between two ideographs, between an ideograph and ，。！？、；：」』）, or between 「『（ and an ideograph |
| RemoveSpaces.NoIdeographUnchanged | lib/processors/removeSpaces.ts:18-22 | text with no U+4E00–U+9FFF ideograph comes back unchanged |
| RemoveSpaces.TwoPasses | lib/processors/removeSpaces.ts:13-23 | "今 日 透過" needs two changing passes to become "今日透過" |
| Sorting.SortDescFacts | lib/processors/simplifiedToTraditional.ts:48 | the key sort is by non-increasing length, a permutation, and stable |
| Dictionary.SortedEntriesPermutes | lib/processors/simplifiedToTraditional.ts:48 | the sorted entries are exactly the dictionary's entries |
| Dictionary.LookupPut | lib/processors/fixTypos.ts:24 | assigning a key sets that key and changes no other |
| Dictionary.LookupAssign | lib/processors/fixTypos.ts:24 | after `Object.assign` a key has the source's last value if the source sets it, else the target's value |
| Dictionary.Cache.Load | lib/processors/simplifiedToTraditional.ts:12-29 | once loaded the cache is returned unchanged; otherwise a successful fetch replaces the cache and sets the flag, and a failed one changes nothing |
| Dictionary.Cache.Effective | lib/processors/simplifiedToTraditional.ts:12-29 | the dictionary a load would return: the cache once loaded, otherwise the fetched one or the cache |
| Dictionary.LoadIsSticky | lib/processors/simplifiedToTraditional.ts:13-15 | after a successful load, every later load returns the same dictionary whatever the fetch gives |
| Rewrite.EscapeRegexIsLiteral | lib/processors/simplifiedToTraditional.ts:83-85 | an escaped key compiles to a pattern that matches exactly the key, so every match is a literal occurrence of the key |
| Rewrite.ReplaceAllAbsent | lib/processors/simplifiedToTraditional.ts:59-60 | a global literal replacement of a key that does not occur changes nothing |
| Rewrite.ReplaceByItself | lib/processors/simplifiedToTraditional.ts:56 | replacing a key by itself changes nothing, which is why skipping such entries is harmless |
| Substitution.KeepIsHarmless | lib/processors/simplifiedToTraditional.ts:56 | with non-empty values, skipping the entries whose value equals the key gives the same text |
| Substitution.SubstituteEveryAgrees | lib/processors/fixTypos.ts:57 | the skipping and the non-skipping passes agree on dictionaries without empty values |
| Substitution.SubstituteAbsent | lib/processors/simplifiedToTraditional.ts:54-74 | if no key occurs in the text, both substitution passes return it unchanged |
| Substitution.SubstituteSameLength | lib/processors/simplifiedToTraditional.ts:54-74 | a character-for-character dictionary keeps the text's length |
| Substitution.ApplyAllConcat | lib/processors/simplifiedToTraditional.ts:54-74 | applying two entry lists one after the other is applying their concatenation |
| SimplifiedToTraditional.Convert | lib/processors/simplifiedToTraditional.ts:38-81 | the loop over sorted keys computes `Substitute`: the given dictionary or else the cached one, applicable entries longest key first |
| SimplifiedToTraditional.ConvertAsync | lib/processors/simplifiedToTraditional.ts:31-36 | empty text returns before any load; otherwise the cache is loaded and the result is the sync form over the loaded dictionary |
| SimplifiedToTraditional.LongestFirst | lib/processors/simplifiedToTraditional.ts:48 | a phrase beats its characters: "头发" becomes "頭髮" |
| FixTypos.TypoCache.Load | lib/processors/fixTypos.ts:15-35 | once loaded the cache is returned; a successful first fetch is merged into the cache with `Object.assign` and sets the flag; a failed one changes nothing |
| FixTypos.FirstLoadLookup | lib/processors/fixTypos.ts:24 | merged into the empty initial object, each key gets the value of its last entry |
| FixTypos.FixTypos | lib/processors/fixTypos.ts:37-71 | empty text returns before any load; otherwise the cache is loaded and the skipping substitution applied |
| FixTypos.ApplyKept | lib/processors/fixTypos.ts:55-67 | the loop applies each entry that has a non-empty correction different from its typo, in the given order, and skips the rest |
| FixTypos.FixTyposSync | lib/processors/fixTypos.ts:74-90 | the loop computes the non-skipping substitution over the given or cached dictionary |
| FixTypos.CorrectsZuoSui | lib/test-dictionaries.ts:86-95 | "這件事很作崇" with 作崇→作祟 becomes "這件事很作祟" |
| FixTypos.EmptyCorrection | lib/processors/fixTypos.ts:57-86 | an empty correction is skipped by `fixTypos` but deletes the typo in `fixTyposSync` |
| RemoveRedundancy.RemoveRedundancySync | lib/processors/removeRedundancy.ts:52-164 | the step-by-step method computes `Spec` over the given or cached lists |
| RemoveRedundancy.DeletePhrases | lib/processors/removeRedundancy.ts:61-67 | every occurrence of each redundant phrase is deleted, one phrase after the other |
| RemoveRedundancy.DeleteFillers | lib/processors/removeRedundancy.ts:69-96 | each filler in turn is deleted at a sentence start, before closing punctuation, and between two commas |
| RemoveRedundancy.HalveAll | lib/processors/removeRedundancy.ts:98-106 | every occurrence of each pattern is replaced by its first half, one pattern after the other |
| RemoveRedundancy.ApplyTable | lib/processors/removeRedundancy.ts:108-130 | the colloquial table is applied entry by entry in its listed order |
| RemoveRedundancy.CollapseRepeats | lib/processors/removeRedundancy.ts:132-146 | for word lengths 8 down to 2, a word of ideographs followed by optional whitespace and the same word becomes one copy |
| RemoveRedundancy.CleanUp | lib/processors/removeRedundancy.ts:148-163 | doubled ，。！？ collapse, whitespace runs are squeezed, whitespace next to punctuation goes, and the text is trimmed |
| RemoveRedundancy.RemoveRedundancy | lib/processors/removeRedundancy.ts:35-50 | empty text returns before any load; otherwise the cache is loaded and `Spec` applied to the loaded lists |
| RemoveRedundancy.SpecNotLonger | lib/processors/removeRedundancy.ts:61-163 | the output is never longer than the input |
| RemoveRedundancy.SpecSpacing | lib/processors/removeRedundancy.ts:149-163 | the output is trimmed, with no whitespace before closing or after opening punctuation and no two whitespace characters in a row |
| RemoveRedundancy.OpeningFillerAndPhrase | lib/processors/removeRedundancy.ts:61-80 | a sentence opening with a filler, a comma and a redundant phrase keeps only what follows the phrase |
| RemoveRedundancy.FillerAfterSentence | lib/processors/removeRedundancy.ts:76-80 | a filler after 。！？ or a line break is deleted with the comma after it, and the sentence end stays |
| RemoveRedundancy.OpeningFiller | lib/processors/removeRedundancy.ts:76-80 | a filler opening the text is deleted with the comma after it |
| RemoveRedundancy.ClosingFiller | lib/processors/removeRedundancy.ts:83-87 | a filler before ，。！？」』 is deleted and the mark stays |
| RemoveRedundancy.FinalFiller | lib/processors/removeRedundancy.ts:83-87 | a filler ending the text is deleted |
| RemoveRedundancy.StandaloneFiller | lib/processors/removeRedundancy.ts:90-94 | "，F，" becomes "，" |
| RemoveRedundancy.FillerAbsent | lib/processors/removeRedundancy.ts:72-94 | a filler that does not occur leaves the text unchanged |
| RemoveRedundancy.DoubledPatternExample | lib/processors/removeRedundancy.ts:99-105 | with "的的" among the patterns, "這個的的確確是真的的" becomes "這個的確確是真的" |
| RemoveRedundancy.TableExample | lib/processors/removeRedundancy.ts:108-130 | the colloquial table turns "等一下下" into "等一下" |
| RemoveRedundancy.OverlappingKey | lib/processors/removeRedundancy.ts:108-130 | every key of the colloquial table contains 下 and is at least three characters long |
| RemoveRedundancy.DropRepeatsAbsent | lib/processors/removeRedundancy.ts:132-146 | text without whitespace and without a character echoed within reach loses no repeated word |
| RemoveRedundancy.CleanUpAbsent | lib/processors/removeRedundancy.ts:149-163 | text without whitespace and without doubled ，。！？ passes the clean-up unchanged |
| RemoveRedundancy.FillerTestExample | lib/test-dictionaries.ts:180-184 | with 其實 a filler and 我覺得 a redundant phrase, "其實，我覺得這個想法很好。" becomes "這個想法很好。" |
| FixPunctuation.FixPunctuationCorrected | lib/processors/fixPunctuation.ts:6-86 | the corrected pass: empty text comes back unchanged, and no two in-line whitespace characters are adjacent |
| FixPunctuation.FixPunctuationAsWritten | lib/processors/fixPunctuation.ts:6-86 | the pass as written: empty text comes back unchanged, and no two whitespace characters of any kind are adjacent |
| FixPunctuation.WidenedNoHanBefore | lib/processors/fixPunctuation.ts:13-22 | after step 1, no ideograph is directly followed by a half-width , . : ; ? ! |
| FixPunctuation.WidenedNoHanAfter | lib/processors/fixPunctuation.ts:15-16 | after step 1, no half-width , or . is directly followed by an ideograph |
| FixPunctuation.HalfToFullTest | lib/processors/fixPunctuation.ts:13-16 | "你好,世界." becomes "你好，世界。", as written and corrected |
| FixPunctuation.RepeatedMarksTest | lib/processors/fixPunctuation.ts:29 | "真的嗎？？？" becomes "真的嗎？", as written and corrected |
| FixPunctuation.WrappedText | lib/processors/fixPunctuation.ts:42-46 | straight quotes or parentheses around text that starts and ends with an ideograph become 「」, 『』 or （） |
| FixPunctuation.SpacedSeparates | lib/processors/fixPunctuation.ts:55 | after step 7 no ，。！？；： is directly followed by a Latin letter |
| FixPunctuation.SpacedOnlySpaces | lib/processors/fixPunctuation.ts:55 | step 7 inserts spaces and changes nothing else |
| FixPunctuation.DotsNeverEllipsis | lib/processors/fixPunctuation.ts:36-58 | runs of dots become 。 at step 2, so the dot ellipsis rule never fires |
| FixPunctuation.Punctuate | lib/processors/fixPunctuation.ts:64-77 | a paragraph is trimmed, and gets 。 exactly when it ends in an ideograph |
| FixPunctuation.AutoPeriod | lib/processors/fixPunctuation.ts:63-78 | a run of ideographs gets a full stop appended, in both versions |
| FixPunctuation.AutoPeriodTest | lib/processors/fixPunctuation.ts:63-78 | "這是一個測試" becomes "這是一個測試。", as written and corrected |
| FixPunctuation.AsWrittenJoinsParagraphs | lib/processors/fixPunctuation.ts:78-81 | as written, the blank line between two punctuated paragraphs becomes one space |
| FixPunctuation.KeepsParagraphs | lib/processors/fixPunctuation.ts:63-81 | with in-line whitespace collapsed only, two paragraphs get their full stops and stay apart |
| FixPunctuation.ParagraphsTest | lib/processors/fixPunctuation.ts:63-81 | "甲\n\n乙" gives "甲。 乙。" as written and "甲。\n\n乙。" corrected |
| AddSpaces.AddSpacesAroundEnglish | lib/processors/addSpacesAroundEnglish.ts:6-51 | empty text comes back unchanged |
| AddSpaces.Separates | lib/processors/addSpacesAroundEnglish.ts:24-39 | no ideograph is directly followed by [A-Za-z0-9@], and no letter or digit by an ideograph |
| AddSpaces.Tight | lib/processors/addSpacesAroundEnglish.ts:42-48 | no whitespace before ，。！？；：、）」』]}, none after （「『[{, and no two whitespace characters in a row |
| AddSpaces.OnlySpaces | lib/processors/addSpacesAroundEnglish.ts:16-48 | the pass inserts and deletes whitespace only |
| AddSpaces.PunctuationIsNotHan | lib/processors/addSpacesAroundEnglish.ts:12-35 | no excluded mark lies in U+4E00–U+9FA5, so the callbacks' exclusion test never fires |
| AddSpaces.PlainUnchanged | lib/processors/addSpacesAroundEnglish.ts:16-48 | text without whitespace or ideographs is returned unchanged |
| AddSpaces.EnumerationTest | lib/processors/addSpacesAroundEnglish.ts:16-48 | "iPhone、" is unchanged |
| AddSpaces.WordThenMarkTest | lib/processors/addSpacesAroundEnglish.ts:16 | "iPhone 、" becomes "iPhone、" |
| AddSpaces.HanThenWord | lib/processors/addSpacesAroundEnglish.ts:24-30 | ideographs directly followed by a word get exactly one space between them |
| AddSpaces.SpacingTest | lib/processors/addSpacesAroundEnglish.ts:24-30 | "我用iPhone" becomes "我用 iPhone" |
| SegmentParagraphs.SegmentParagraphs | lib/processors/segmentParagraphs.ts:18-99 | the pass as written, with the consuming merge, the dialogue loop testing opening marks first, and the cap before the blank removal: empty text comes back unchanged and the output is trimmed |
| SegmentParagraphs.SegmentParagraphsCorrected | lib/processors/segmentParagraphs.ts:18-99 | the pass corrected three ways (every single line break merged, a second `"` closing the quote, the cap last): empty text comes back unchanged and the output is trimmed |
| SegmentParagraphs.SplitDialogue | lib/processors/segmentParagraphs.ts:43-77 | the character loop computes the dialogue parts, as written with the opening test first, or with the closing test first so that a second `"` closes the first |
| SegmentParagraphs.DialoguePartsTrimmed | lib/processors/segmentParagraphs.ts:54-77 | every dialogue part is non-empty and trimmed, in both versions |
| SegmentParagraphs.DialogueKeepsText | lib/processors/segmentParagraphs.ts:50-79 | the parts hold the whole paragraph in order, apart from whitespace, in both versions |
| SegmentParagraphs.OwnPart | lib/processors/segmentParagraphs.ts:50-77 | 「…」 or 『…』 after plain text is a part of its own, as written and corrected, and so is "…" with the closing test first; the text before it is one part, and the rest is split on its own |
| SegmentParagraphs.PlainParts | lib/processors/segmentParagraphs.ts:50-77 | a trimmed paragraph without dialogue is one part, as written and corrected |
| SegmentParagraphs.QuoteNeverCloses | lib/processors/segmentParagraphs.ts:53-63 | as written, a closing `"` opens another part instead of closing the quote |
| SegmentParagraphs.QuoteKeptParts | lib/processors/segmentParagraphs.ts:53-69 | with the closing test first, a straight-quoted piece is one part |
| SegmentParagraphs.QuoteExample | lib/processors/segmentParagraphs.ts:53-69 | `他說"你好"然後` gives `他說`, `"你好`, `"然後` as written and `他說`, `"你好"`, `然後` corrected |
| SegmentParagraphs.QuoteProcessed | lib/processors/segmentParagraphs.ts:43-79 | with `dialogueNewLine` on, `他說"你好"然後` is put on three lines: `他說`, `"你好`, `"然後` as written, and `他說`, `"你好"`, `然後` corrected |
| SegmentParagraphs.SplitLongParagraph | lib/processors/segmentParagraphs.ts:101-144 | the loop, with the global regular expression's `lastIndex`, computes `SplitLong` |
| SegmentParagraphs.LastIndexHarmless | lib/processors/segmentParagraphs.ts:109-115 | the `lastIndex` carried by `sentenceEnders.test` never changes the outcome on the pieces `split` produces |
| SegmentParagraphs.SentencesEnd | lib/processors/segmentParagraphs.ts:112-136 | every piece is non-empty and trimmed, and every piece but the last ends with 。, ！ or ？ |
| SegmentParagraphs.SentencesKeepText | lib/processors/segmentParagraphs.ts:110-136 | the pieces hold the paragraph's text in order, apart from whitespace |
| SegmentParagraphs.SplitLongKeepsText | lib/processors/segmentParagraphs.ts:101-144 | cutting a long paragraph only adds or drops whitespace |
| SegmentParagraphs.NoEnderUnchanged | lib/processors/segmentParagraphs.ts:139-141 | `splitLongParagraph` returns a paragraph without 。！？ unchanged |
| SegmentParagraphs.DefaultsKeepShort | lib/processors/segmentParagraphs.ts:12-16 | with the defaults, a non-blank paragraph of at most 1000 characters is not split |
| SegmentParagraphs.ProcessPlain | lib/processors/segmentParagraphs.ts:38-88 | a non-blank paragraph with neither dialogue nor 。！？ comes through unchanged |
| SegmentParagraphs.RejoinPlain | lib/processors/segmentParagraphs.ts:36-91 | non-blank paragraphs that need no processing are rejoined with blank lines as they were |
| SegmentParagraphs.NonBlank | lib/processors/segmentParagraphs.ts:91 | the filter keeps only non-blank paragraphs |
| SegmentParagraphs.SegmentLimitsBreaks | lib/processors/segmentParagraphs.ts:94-98 | the corrected output never has three line breaks in a row |
| SegmentParagraphs.BlankLineOrder | lib/processors/segmentParagraphs.ts:94-96 | as written, "a\nb\n \n\nc" ends with three line breaks in a row because the blank is removed after the cap |
| SegmentParagraphs.MergesAll | lib/processors/segmentParagraphs.ts:30 | with the look-around rule, no single line break is left between two other characters |
| SegmentParagraphs.MergeMissesSecond | lib/processors/segmentParagraphs.ts:30 | as written, "a\nb\nc" becomes "a b\nc": the first match consumes `b`, so the second break survives |
| DiffUtils.KindOf | lib/diffUtils.ts:30-36 | DIFF_DELETE maps to delete, DIFF_INSERT to insert, every other code to equal |
| DiffUtils.KindOfCode | lib/diffUtils.ts:30-36 | the mapping recovers each kind from its code |
| DiffUtils.Tagged | lib/diffUtils.ts:30-36 | the mapping keeps the number, order and texts of the library's diffs |
| DiffUtils.TaggedKeepsText | lib/diffUtils.ts:30-36 | the tagged segments spell the library's texts in order |
| DiffUtils.Changes | lib/diffUtils.ts:56 | the count of non-equal segments is at most the number of segments, and zero iff all are equal |
| DiffUtils.Stats | lib/diffUtils.ts:42-64 | `modifications` is at most `insertions` and at most `deletions`; `totalChanges` is at most the number of segments |
| DiffUtils.CalculateStatistics | lib/diffUtils.ts:42-64 | the loop computes `Stats`: summed insert and delete lengths, their minimum, and the count of changed segments |
| DiffUtils.LengthOfKindText | lib/diffUtils.ts:46-52 | the summed length of a kind is the length of that kind's text |
| DiffUtils.AllEqualNoChanges | lib/diffUtils.ts:43-63 | an empty or all-equal list gives all-zero statistics |
| DiffUtils.Merged | lib/diffUtils.ts:69-89 | merging never lengthens the list, maps [] to [] and only [], and keeps the last kind |
| DiffUtils.MergeConsecutiveSegments | lib/diffUtils.ts:69-89 | the loop with its running `current` segment computes `Merged` |
| DiffUtils.Absorb | lib/diffUtils.ts:76-84 | a segment of the current kind is appended to `current`; otherwise `current` is pushed and the segment becomes `current`: one step of `Merged` |
| DiffUtils.MergedNoAdjacent | lib/diffUtils.ts:75-88 | after merging, no two neighbouring segments share a kind |
| DiffUtils.MergedKeepsText | lib/diffUtils.ts:75-88 | merging keeps the in-order text |
| DiffUtils.MergedKeepsKindText | lib/diffUtils.ts:75-88 | merging keeps the text of each kind |
| DiffUtils.MergedStats | lib/diffUtils.ts:75-88 | merging keeps insertions, deletions and modifications, and never lengthens the list |
| DiffUtils.MergedChanges | lib/diffUtils.ts:75-88 | merging never adds a changed segment |
| DiffUtils.MergeIdle | lib/diffUtils.ts:69-89 | a list whose neighbours already differ in kind is its own merge |
| DiffUtils.MergeIdempotent | lib/diffUtils.ts:69-89 | merging twice is merging once |
| DiffUtils.PresentationDistinct | lib/diffUtils.ts:94-120 | only equal segments go unstyled, and the three kinds differ in label and in style |
| DiffUtils.ColorClass | lib/diffUtils.ts:94-106 | a segment is shown unstyled exactly when it is kept text |
| DiffUtils.Label | lib/diffUtils.ts:109-120 | every kind has a two-character label, so the empty `default` label is never returned |
| ExportUtils.GetTextStatistics | lib/exportUtils.ts:95-125 | empty text gives all zeros; `characters` is the length and `charactersNoSpaces` the length minus the whitespace count |
| ExportUtils.NonBlank | lib/exportUtils.ts:109 | only pieces that are non-blank once trimmed are counted as paragraphs |
| ExportUtils.LinesAndParagraphs | lib/exportUtils.ts:108-109 | for non-empty text `lines` is the number of line breaks plus one, and `paragraphs` is at most `lines` |
| ExportUtils.WordsBounded | lib/exportUtils.ts:113-116 | `words` (ideographs plus maximal ASCII-letter runs) never exceeds `characters` |
| ExportUtils.Decimal | lib/exportUtils.ts:75-79 | `String(n)` is a non-empty digit string that reads back as `n` |
| ExportUtils.Pad2 | lib/exportUtils.ts:75-79 | `padStart(2, '0')` gives exactly two digits for numbers below 100, reading back as the number |
| ExportUtils.GenerateFilename | lib/exportUtils.ts:72-82 | the name is `prefix_YYYYMMDD_HHMMSS.txt`, each field at its position |
| ExportUtils.FilenameReadsBack | lib/exportUtils.ts:72-82 | each field of the name reads back as the date component it was made from |
| StorageUtils.TruncateText | lib/storageUtils.ts:123-126 | text up to the limit is unchanged; longer text is its first `maxLength` characters plus "..." |
| StorageUtils.Saved | lib/storageUtils.ts:37-40 | the new item comes first, older items follow shifted by one in their order, and the list is capped at ten |
| StorageUtils.SavesStayCapped | lib/storageUtils.ts:37-40 | however many saves follow one another, the history holds at most ten items, the newest first |
| StorageUtils.Find | lib/storageUtils.ts:68 | the first item with the id, or nothing iff no item has it |
| StorageUtils.Without | lib/storageUtils.ts:88 | no item with the id is kept |
| StorageUtils.WithoutConcat | lib/storageUtils.ts:88 | filtering works piece by piece, so the kept items stay in order |
| StorageUtils.WithoutAbsent | lib/storageUtils.ts:88 | items with another id are all kept |
| StorageUtils.WithoutCount | lib/storageUtils.ts:88 | exactly the items with the id are removed |
| StorageUtils.HistoryStore.constructor | lib/storageUtils.ts:51-61 | storage starts with nothing under the history key |
| StorageUtils.HistoryStore.GetHistory | lib/storageUtils.ts:51-61 | the stored list, or [] when nothing is stored or it does not parse |
| StorageUtils.HistoryStore.SaveToHistory | lib/storageUtils.ts:20-46 | a successful write stores the capped list with the truncated new item first; a failed write leaves storage unchanged |
| StorageUtils.HistoryStore.GetHistoryItem | lib/storageUtils.ts:66-69 | nothing iff no stored item has the id; otherwise a stored item with that id |
| StorageUtils.HistoryStore.ClearHistory | lib/storageUtils.ts:74-80 | the key is removed and the history reads as empty |
| StorageUtils.HistoryStore.DeleteHistoryItem | lib/storageUtils.ts:85-93 | a successful write stores the history without the items with the id; a failed one changes nothing |
| StorageUtils.FormatTimestamp | lib/storageUtils.ts:98-118 | "剛才" under a minute, then minutes under an hour, hours under a day, days under a week, and a locale date from a week on |
| Paths.GetDictionaryPath | lib/utils/paths.ts:6-17 | on a public host the path is "/manuscript-editor/dictionaries/" + file; on localhost, 127.0.0.1 or outside a browser it is "/dictionaries/" + file |
| Paths.PathEndsWithFile | lib/utils/paths.ts:13-16 | the path always ends with "/dictionaries/" + file |

## Left out

- The character diff inside `calculateDiff`: `diff_main` and `diff_cleanupSemantic` come from the diff-match-patch library, which is not part of this model. Only the tag mapping applied to its output is modelled.
- Fetching and JSON parsing of the dictionaries. Each load receives the fetch outcome as an `Option`, and a failed fetch or parse is `None`.
- `console.log` and `console.warn` calls, and the replacement counters that exist only to be logged.
- `performance.now` and `processingTime` in `processText`, which only measure time.
- TextProcessor.ProcessText: does not model the catch-and-rethrow (lib/textProcessor.ts:102-105). No modelled pass can fail, and fetch failures reach the caches as `None`, so no exception path is left.
- Browser effects: access to `localStorage`, `Date.now` and the random ids of `generateId`. The id and the time are parameters, and a refused write is a `writable` flag. `isLocalStorageAvailable` is not modelled.
- StorageUtils.FormatTimestamp: for times a week or more ago it returns a `LocaleDate` marker instead of the text of `toLocaleDateString('zh-TW', …)`, because locale formatting is not modelled.
- ExportUtils.GenerateFilename: states the layout only for date fields below 100, which every month, day, hour, minute and second is. The local clock is a parameter.
- The download and clipboard code and `formatNumber` in lib/exportUtils.ts, which are DOM and locale calls.
- SegmentParagraphs.SegmentParagraphs: `minParagraphLength` is carried in the options but, as in the source, never read.
- The LLM path, the React UI, the build configuration and the offline dictionary scripts.
- Strings are sequences of Unicode scalar values, not UTF-16 code units. Every character class the passes test lies in the Basic Multilingual Plane, so the two agree on them. Lengths differ for a character outside that plane, which counts as two units in the program and one here. This affects `characters` in `getTextStatistics`, the `maxLength` cut of `truncateText`, the `maxParagraphLength` comparison of `segmentParagraphs`, the lengths of diff segments, and the key-length sort of the dictionary passes.
- Rewrite.ReplaceAll: applies the replacement as literal text. JavaScript's `replace` expands `$&`, `$$`, `` $` `` and `$'` in a replacement string, so a dictionary value holding one of them is expanded by the program (lib/processors/simplifiedToTraditional.ts:60, lib/processors/fixTypos.ts:61 and 86, lib/processors/removeRedundancy.ts:104 and 125) but not here.
- Dictionary.Cache.Load: stores the fetched entries as given and does not merge a repeated key. A parsed JSON object has one entry per key, so the dictionaries it receives are taken to have distinct keys.

## Findings

| source | as written | input that shows it | evidently intended | confidence | as-written member | corrected member |
|---|---|---|---|---|---|---|
| lib/processors/removeTimestamps.ts:55-56 | `/^\s+/gm` and `/\s+$/gm` also match line breaks, so they delete blank lines | "a\n\nb" (two prose paragraphs) comes back as "a\nb" | strip spaces and tabs at line ends only, and keep paragraph breaks (line 59 caps line breaks at two) | not executed | RemoveTimestamps.AsWrittenJoinsParagraphs | RemoveTimestamps.KeepsParagraphs |
| lib/processors/fixPunctuation.ts:81 | `/\s{2,}/g` → `' '` also turns the "\n\n" that step 9 just joined paragraphs with into one space | "甲\n\n乙" gives "甲。 乙。" | collapse in-line whitespace only, giving "甲。\n\n乙。" | not executed | FixPunctuation.AsWrittenJoinsParagraphs | FixPunctuation.KeepsParagraphs |
| lib/processors/segmentParagraphs.ts:53-63 | the opening-mark test comes first, so a `"` always opens dialogue and never closes it | `他說"你好"然後` gives `他說`, `"你好`, `"然後` | the second `"` closes the quote, giving `他說`, `"你好"`, `然後` | not executed | SegmentParagraphs.QuoteNeverCloses | SegmentParagraphs.QuoteKeptParts |
| lib/processors/segmentParagraphs.ts:94-96 | line-break runs are capped before blanks between breaks are removed, so removing a blank can leave three breaks in a row | "a\nb\n \n\nc" gives "a b\n\n\nc" | at most two line breaks in a row (line 94's comment) | not executed | SegmentParagraphs.BlankLineOrder | SegmentParagraphs.SegmentLimitsBreaks |
| lib/processors/segmentParagraphs.ts:30 | `/([^\n])\n([^\n])/g` consumes the character after each break, so the next single break is not matched | "a\nb\nc" gives "a b\nc" | every single line break becomes a space, giving "a b c" | not executed; medium | SegmentParagraphs.MergeMissesSecond | SegmentParagraphs.MergesAll |
