# Google Classroom dropdown search, usage ranking and notice cleanup, in Dafny

This project models the logic of a browser extension for Google Classroom.
It covers three jobs.

- **Searching dropdown lists across scripts.** Typing a query filters and highlights a dropdown's items. The query can be in romaji, hiragana or katakana, and the item's text can be in kanji.
- **Ranking dropdown items by how often they were clicked.**
- **Removing the poster's name from notification texts.**

The model is split into seven modules, one per file.

- `JsString` (`js_string.dfy`) holds the pieces of the JavaScript string library the code relies on:
  - `trim` and the `\s` class;
  - the other character classes the regular expressions strip, as one datatype;
  - `indexOf`, `includes`, `replace` with a string pattern, and `substring`;
  - a `Set` of strings, as an insertion-ordered duplicate-free sequence.

  It also holds `Converter`, the library calls nothing is known about: NFKC normalization, `toLowerCase`, and wanakana's kana and romaji conversions.
- `ReadingDictionary` (`reading_dictionary.dfy`) is the ordered kanji-to-reading table and `getReadingWithFallback`.
- `RomajiVariants` (`romaji_variants.dfy`) is `generateRomajiVariants`. It is a specification function, built stage by stage over the substitution table. Beside it is the imperative method with its three nested loops, proved equal to that function.
- `QueryPatterns` (`query_patterns.dfy`) covers `normalizeQuery`, `tokenizeRomaji` (the `exec` loop) and `generateSearchPatterns`.
- `DropdownSearch` (`dropdown_search.dfy`) is the search engine class.
  - It has a per-dropdown cache of normalized item records.
  - It covers filtering, highlighting and its removal, and keyboard navigation.
  - An item's DOM subtree is a flat list of text nodes and highlight spans.
- `UsageTracker` (`usage_tracker.dfy`) is the click counter.
  - It covers the ranking sort and the assignment of CSS `order` values.
  - It covers the once-only listener and scheduling bookkeeping.
- `ClassroomText` (`classroom_text.dfy`) covers:
  - the pattern dispatch of `processTextInElement`;
  - its `さんが` fallback;
  - the fifteen regular-expression replacements and the `trim()` of `cleanupText`, each replacement written as an explicit scan over character classes.

Some things are parameters of the model rather than part of it:

- the tables of the extension's `constants` module: the romaji substitution rules and the notice patterns;
- each notice pattern, given as the result of `text.match(pattern)`: an optional array of optional captures;
- the library conversions.

The model keeps these behaviours of the code, which a reader might not expect:

- Highlighting is done with the trimmed raw query, which is not lower-cased.
- An item hidden by a filter keeps the highlight spans it had.
- Search-pattern generation has no guard against a failing conversion.
- Filtering an already highlighted dropdown again wraps the text nodes outside the existing spans again, so re-filtering is not idempotent. No lemma claims that it is.

## Model

| member | source | states |
|---|---|---|
| `ReadingDictionary.FirstKeyIn` | src-firefox/reading-dictionary.ts:42-43 | the entry found is the first, in table order, whose key occurs in the text; no earlier key occurs, and when none is found no key occurs |
| `ReadingDictionary.ResolveReading` | src-firefox/reading-dictionary.ts:35-49 | the result is always one of three things: the non-empty reading of a key equal to the normalized text, the normalized text with the first occurrence of a contained key replaced by its reading, or the normalized text itself |
| `ReadingDictionary.GetReadingWithFallback` | src-firefox/reading-dictionary.ts:35-49 | on the extension's table, the reading is empty exactly when the NFKC-normalized, trimmed text is |
| `ReadingDictionary.ResolveExactKey` | src-firefox/reading-dictionary.ts:35-40 | a text that normalizes to a key with a non-empty reading resolves to that reading |
| `ReadingDictionary.ResolveFirstContainedKey` | src-firefox/reading-dictionary.ts:42-46 | otherwise the first key in table order that occurs has its first occurrence replaced by its reading; the text around it is kept |
| `ReadingDictionary.ResolveNoKey` | src-firefox/reading-dictionary.ts:35-48 | a text containing no key comes back NFKC-normalized and trimmed, otherwise unchanged |
| `ReadingDictionary.CompoundBeforeComponent` | src-firefox/reading-dictionary.ts:42-45 | when a compound listed before one of its components occurs, the key replaced is never that component |
| `ReadingDictionary.ReadingTableNonEmpty` | src-firefox/reading-dictionary.ts:1-33 | every key and every reading in the table is non-empty, so the truthiness test of the exact lookup never falls through |
| `ReadingDictionary.TableExactLookup` | src-firefox/reading-dictionary.ts:35-40 | on the extension's table, any text that normalizes to a key gets that key's reading |
| `ReadingDictionary.ReadingTableCompoundsFirst` | src-firefox/reading-dictionary.ts:2-29 | 進路授業, 学問入門講座, 討論対策 and 試験対策 precede the components 授業, 講座, 入門 and 対策 they contain |
| `RomajiVariants.ExpansionsSound` | src-firefox/DropdownSearchEnhancer.ts:371-375 | every string the indexOf scan adds replaces exactly one occurrence of `from` by `to` |
| `RomajiVariants.ApplyRuleSpec` | src-firefox/DropdownSearchEnhancer.ts:366-378 | one rule keeps the old set as a prefix, keeps it duplicate-free, and adds exactly the scan results of the snapshot's strings |
| `RomajiVariants.StageSpec` | src-firefox/DropdownSearchEnhancer.ts:362-379 | after any number of rules the set starts with the input and has no duplicates |
| `RomajiVariants.StageStep` | src-firefox/DropdownSearchEnhancer.ts:365-377 | a rule removes nothing; each new string is one replacement of a string present when the rule began; every such replacement found by the scan is added |
| `RomajiVariants.RomajiVariantsSpec` | src-firefox/DropdownSearchEnhancer.ts:361-382 | the result is duplicate-free and its first element is the input romaji |
| `RomajiVariants.ScanReplacements` | src-firefox/DropdownSearchEnhancer.ts:368-377 | the while-indexOf loop adds exactly the scan's replacements, in order; it terminates because `from` is non-empty |
| `RomajiVariants.ScanOnce` | src-firefox/DropdownSearchEnhancer.ts:371-375 | one turn replaces the occurrence just found, resumes the search strictly further right, and leaves what the rest of the scan will add to the set unchanged |
| `RomajiVariants.ScanAddSpec` | src-firefox/DropdownSearchEnhancer.ts:371-376 | adding each replacement as the search finds it gives the same set as adding the whole list of single-occurrence replacements afterwards |
| `RomajiVariants.GenerateRomajiVariants` | src-firefox/DropdownSearchEnhancer.ts:361-382 | the nested loops compute the staged specification, each rule scanning a snapshot of the set |
| `QueryPatterns.NormalizeQuery` | src-firefox/DropdownSearchEnhancer.ts:315-318 | the normalized query neither starts nor ends with whitespace |
| `QueryPatterns.ExecLetters` | src-firefox/DropdownSearchEnhancer.ts:305-308 | one `exec` finds a non-empty run at or after `lastIndex`, or nothing |
| `QueryPatterns.ExecFindsNextRun` | src-firefox/DropdownSearchEnhancer.ts:308-309 | what one `exec` finds is the next maximal run of letters, and the rest are found after it |
| `QueryPatterns.LetterRunsSpec` | src-firefox/DropdownSearchEnhancer.ts:303-313 | every token is a non-empty string of ASCII letters that sits in the input with a non-letter or an end of the text on each side, so it is a maximal run; joined, the tokens are exactly the input's letters in order; there is one token per place where a run starts |
| `QueryPatterns.TokenizeRomaji` | src-firefox/DropdownSearchEnhancer.ts:303-313 | the `exec` loop returns the letter runs that `LetterRunsSpec` describes, left to right |
| `QueryPatterns.NonEmpty` | src-firefox/DropdownSearchEnhancer.ts:300 | the filter keeps exactly the non-empty strings and keeps them duplicate-free |
| `QueryPatterns.AddEach` | src-firefox/DropdownSearchEnhancer.ts:292 | adding each variant to the set is adding the whole list in order |
| `QueryPatterns.AddTokenForms` | src-firefox/DropdownSearchEnhancer.ts:294-298 | the token loop adds each token's hiragana then katakana form, in token order |
| `QueryPatterns.GenerateSearchPatterns` | src-firefox/DropdownSearchEnhancer.ts:275-301 | the method builds the set of all pattern sources in insertion order and drops empty strings |
| `QueryPatterns.SearchPatternsSpec` | src-firefox/DropdownSearchEnhancer.ts:275-300 | the patterns are exactly the non-empty sources, with no duplicates and no empty string, and include the normalized query when it is non-empty |
| `DropdownSearch.DropdownSearchEnhancer.GetItemText` | src-firefox/DropdownSearchEnhancer.ts:393-401 | the stored original text is returned if present; otherwise the current text is stored and returned |
| `DropdownSearch.HiraganaOnly` | src-firefox/DropdownSearchEnhancer.ts:357 | the result holds only U+3040–U+309F characters, each hiragana character as often as in the input, and is no longer than it |
| `DropdownSearch.HiraganaOnlyAppend` | src-firefox/DropdownSearchEnhancer.ts:357 | the removal keeps the hiragana in their order: those of a concatenation are the hiragana of each part, one after the other |
| `DropdownSearch.HiraganaOnlyChar` | src-firefox/DropdownSearchEnhancer.ts:357 | a single character is kept exactly when it lies in U+3040–U+309F; with `HiraganaOnlyAppend` this fixes the result of every text |
| `DropdownSearch.ExtractAllHiragana` | src-firefox/DropdownSearchEnhancer.ts:355-359 | the result holds only hiragana, each as often as in the romaji-preserving hiragana conversion of the text, and in the same order, since it is `HiraganaOnly` of that conversion |
| `DropdownSearch.RecordSpec` | src-firefox/DropdownSearchEnhancer.ts:328-348 | a record keeps its element and text; its romaji heads its duplicate-free variant list; its hiragana is the extracted hiragana whenever that is non-empty |
| `DropdownSearch.DropdownSearchEnhancer.NormalizeItem` | src-firefox/DropdownSearchEnhancer.ts:329-348 | the loop body builds the record of the item's stashed text and stashes that text |
| `DropdownSearch.DropdownSearchEnhancer.NormalizeAll` | src-firefox/DropdownSearchEnhancer.ts:328-349 | the loop yields one record per item, in item order, each built from the text the item had stashed or showed before, and leaves that text stashed on the item |
| `DropdownSearch.DropdownSearchEnhancer.GetNormalizedItems` | src-firefox/DropdownSearchEnhancer.ts:320-353 | a cached dropdown gets its cached records back and nothing changes; otherwise one record per item, in item order, is built and cached |
| `DropdownSearch.ShownWhenTextContainsQuery` | src-firefox/DropdownSearchEnhancer.ts:248-262 | an item whose lower-cased text contains the non-empty normalized query matches |
| `DropdownSearch.MatchesIffSourceOccurs` | src-firefox/DropdownSearchEnhancer.ts:248-257 | an item matches the query exactly when one of the query's non-empty pattern sources (its normalized, lower-case, kana and romaji forms, romaji variants and letter-run kana) occurs in one of the item's targets; removing duplicates and empty strings from the patterns changes no verdict |
| `DropdownSearch.DropdownSearchEnhancer.MatchedElements` | src-firefox/DropdownSearchEnhancer.ts:246-262 | the matched set is exactly the elements of the records some pattern occurs in |
| `DropdownSearch.DropdownSearchEnhancer.FilterOne` | src-firefox/DropdownSearchEnhancer.ts:265-271 | a matched element is shown and highlighted; any other is hidden and deactivated, and keeps its spans |
| `DropdownSearch.DropdownSearchEnhancer.ApplyFilter` | src-firefox/DropdownSearchEnhancer.ts:264-272 | every record's element ends shown and highlighted if it matches, hidden and inactive if not |
| `DropdownSearch.DropdownSearchEnhancer.FilterRecords` | src-firefox/DropdownSearchEnhancer.ts:244-272 | every record's element is shown and highlighted when some search pattern occurs in one of its targets, and hidden and deactivated otherwise |
| `DropdownSearch.DropdownSearchEnhancer.FilterWith` | src-firefox/DropdownSearchEnhancer.ts:243-272 | with a non-empty query, each record's element is shown iff some search pattern occurs in one of its targets; a dropdown met for the first time gets one record per item, built from the item's own stashed text, which stays stashed, and only this dropdown's cache entry is added; a cached dropdown keeps its cache and its items' stashed texts; no element outside the dropdown's records changes |
| `DropdownSearch.DropdownSearchEnhancer.FilterCached` | src-firefox/DropdownSearchEnhancer.ts:243-272 | on a dropdown already cached, the cache and the items' stashed texts are kept, each cached record's element is shown iff some search pattern occurs in one of its targets, and no element outside those records changes |
| `DropdownSearch.DropdownSearchEnhancer.FilterFresh` | src-firefox/DropdownSearchEnhancer.ts:243-272 | on a dropdown met for the first time, one record per item is built from the item's stashed text and cached under this dropdown alone, the other entries staying as they were; each item is shown iff some search pattern occurs in one of its record's targets, and no element outside those records changes |
| `DropdownSearch.DropdownSearchEnhancer.FilterDropdown` | src-firefox/DropdownSearchEnhancer.ts:236-273 | an empty trimmed query resets every item and touches no other cached element; otherwise the filter of `FilterWith`, with the cache reused, the records of a new dropdown built from its items' texts and added as its own cache entry only, and no element outside its records changed |
| `DropdownSearch.DropdownSearchEnhancer.ResetFilter` | src-firefox/DropdownSearchEnhancer.ts:384-391 | every item is shown, inactive, and holds its whole text as one text node |
| `DropdownSearch.SplitAt` | src-firefox/DropdownSearchEnhancer.ts:430-442 | the before / span / after pieces together spell the original text |
| `DropdownSearch.HighlightSegment` | src-firefox/DropdownSearchEnhancer.ts:424-445 | highlighting a text node never changes its text; a rejected node or one without a match is left as it is |
| `DropdownSearch.Highlighted` | src-firefox/DropdownSearchEnhancer.ts:418-446 | highlighting all nodes keeps the item's text |
| `DropdownSearch.HighlightMatch` | src-firefox/DropdownSearchEnhancer.ts:424-442 | the span holds the first occurrence of the query, with the query's length, and exactly the text before it precedes it |
| `DropdownSearch.DropdownSearchEnhancer.HighlightText` | src-firefox/DropdownSearchEnhancer.ts:403-447 | an empty query removes the highlights; otherwise the node loop yields the highlighted segments |
| `DropdownSearch.Unmarked` | src-firefox/DropdownSearchEnhancer.ts:450-455 | no span is left, each node keeps its text, and so the item keeps its whole text |
| `DropdownSearch.Normalize` | src-firefox/DropdownSearchEnhancer.ts:456 | `normalize()` keeps the text, merges neighbouring text nodes and drops empty ones |
| `DropdownSearch.NormalizePlain` | src-firefox/DropdownSearchEnhancer.ts:456 | without spans, normalizing leaves a single text node with the whole text |
| `DropdownSearch.UnmarkedNormalized` | src-firefox/DropdownSearchEnhancer.ts:449-457 | removing the highlights leaves one text node with the item's whole text |
| `DropdownSearch.RemoveAfterHighlight` | src-firefox/DropdownSearchEnhancer.ts:403-457 | removing highlights after highlighting restores exactly the text the item had before |
| `DropdownSearch.DropdownSearchEnhancer.RemoveHighlight` | src-firefox/DropdownSearchEnhancer.ts:449-457 | the item ends as one text node holding its whole previous text |
| `DropdownSearch.Visible` | src-firefox/DropdownSearchEnhancer.ts:460 | exactly the items that are not hidden, each once |
| `DropdownSearch.VisibleAppend` | src-firefox/DropdownSearchEnhancer.ts:460 | the visible items keep document order: those of a concatenation are the visible items of each part, one after the other |
| `DropdownSearch.FirstActive` | src-firefox/DropdownSearchEnhancer.ts:463 | an active item with no active item before it, or none exactly when no item is active |
| `DropdownSearch.IndexOfItem` | src-firefox/DropdownSearchEnhancer.ts:464 | the first index of the item, or -1 exactly when it is absent |
| `DropdownSearch.NextIndex` | src-firefox/DropdownSearchEnhancer.ts:469 | ArrowDown moves to `(current + 1) mod n`, or to 0 when nothing is active |
| `DropdownSearch.PrevIndex` | src-firefox/DropdownSearchEnhancer.ts:475 | ArrowUp moves to `(current - 1) mod n`, or to `n - 1` when nothing is active |
| `DropdownSearch.MoveTarget` | src-firefox/DropdownSearchEnhancer.ts:463-476 | the item an arrow key makes active is always a visible one |
| `DropdownSearch.DropdownSearchEnhancer.MoveActive` | src-firefox/DropdownSearchEnhancer.ts:468-470 | the marker leaves the old active item and lands on the target; with at most one active item before, exactly the target is active after |
| `DropdownSearch.DropdownSearchEnhancer.HandleKeyboard` | src-firefox/DropdownSearchEnhancer.ts:459-483 | no visible item or another key changes nothing; arrows move the single active marker cyclically over visible items; Escape clears the box and resets every item |
| `UsageTracker.GetKey` | src/DropdownUsageTracker.ts:40-47 | the key neither starts nor ends with whitespace |
| `UsageTracker.DropdownUsageTracker.IncrementUsage` | src/DropdownUsageTracker.ts:49-56 | an empty key counts nothing; otherwise its count goes up by one, from 0 when absent, and no other count changes |
| `UsageTracker.InsertSpec` | src/DropdownUsageTracker.ts:71 | inserting into a sorted list keeps it sorted by the comparator and adds exactly the one entry |
| `UsageTracker.SortScoredSpec` | src/DropdownUsageTracker.ts:71 | the sort is a permutation, scores never increase along it, and equal scores keep their original order |
| `UsageTracker.SortedEntriesFromItems` | src/DropdownUsageTracker.ts:63-71 | every sorted entry is the entry built from the item at its original index, and every entry appears |
| `UsageTracker.SortedItemsDistinct` | src/DropdownUsageTracker.ts:60-78 | after the sort each item of the dropdown has exactly one position |
| `UsageTracker.DropdownUsageTracker.ApplySortedOrder` | src/DropdownUsageTracker.ts:71-78 | after the sort the dropdown is a flex column, the item at sorted position `k` gets order `k`, and every item gets an order below the item count |
| `UsageTracker.DropdownUsageTracker.AssignOrders` | src/DropdownUsageTracker.ts:76-78 | entry `k` of the sorted list gets order `k`, and every item gets an order below the item count |
| `UsageTracker.DropdownUsageTracker.ReorderDropdown` | src/DropdownUsageTracker.ts:58-80 | with three items or fewer, or no used item, nothing changes; otherwise the dropdown becomes a flex column and each item's order is its rank by descending count, ties in document order |
| `UsageTracker.DropdownUsageTracker.Unprocessed` | src/DropdownUsageTracker.ts:120-133 | exactly the items not processed before, each once |
| `UsageTracker.DropdownUsageTracker.UnprocessedAppend` | src/DropdownUsageTracker.ts:120-133 | one more item at the end of the list is appended at the end of the listeners exactly when it is neither processed nor already seen, so listeners are added in document order |
| `UsageTracker.DropdownUsageTracker.AddListeners` | src/DropdownUsageTracker.ts:120-133 | the loop marks every item processed and adds exactly the listeners `Unprocessed` gives, after the existing ones |
| `UsageTracker.DropdownUsageTracker.AddListener` | src/DropdownUsageTracker.ts:121-132 | an item gets a listener only if it had none; no item ever has two |
| `UsageTracker.DropdownUsageTracker.SetupDropdown` | src/DropdownUsageTracker.ts:117-139 | every item ends processed with exactly one listener; the dropdown's reordering is scheduled once, on its first setup only |
| `ClassroomText.RunLength` | dist-firefox/ClassroomTextProcessor.js:127-133 | the length of the maximal run of class characters at the start |
| `ClassroomText.MatchLength` | dist-firefox/ClassroomTextProcessor.js:119-130 | a greedy match of a cleanup pattern fits in the text and is at least two characters long |
| `ClassroomText.ReplaceAll` | dist-firefox/ClassroomTextProcessor.js:119-130 | a global replacement by at most two characters never lengthens the text |
| `ClassroomText.StripLeadingYear` | dist-firefox/ClassroomTextProcessor.js:118 | the anchored year replacement only removes a prefix |
| `ClassroomText.StripTrailingWorksheetUnderscore` | dist-firefox/ClassroomTextProcessor.js:123 | the trailing worksheet replacement only removes a suffix |
| `ClassroomText.StripTrailingWorksheet` | dist-firefox/ClassroomTextProcessor.js:124 | the trailing worksheet replacement only removes a suffix |
| `ClassroomText.StripLeadingWorksheet` | dist-firefox/ClassroomTextProcessor.js:125 | the leading worksheet replacement only removes a prefix |
| `ClassroomText.StripYears` | dist-firefox/ClassroomTextProcessor.js:118-122 | the year replacements never lengthen the text |
| `ClassroomText.StripWorksheetLabels` | dist-firefox/ClassroomTextProcessor.js:123-126 | the worksheet replacements never lengthen the text |
| `ClassroomText.CollapseSeparators` | dist-firefox/ClassroomTextProcessor.js:127-130 | trimming and collapsing separators never lengthens the text |
| `ClassroomText.TrimEdges` | dist-firefox/ClassroomTextProcessor.js:131-133 | the result neither starts nor ends with `_`, `＿`, `-` or whitespace |
| `ClassroomText.SepRunsCollapsed` | dist-firefox/ClassroomTextProcessor.js:130 | after collapsing runs of `[_＿\s]` no two neighbouring characters are both separators |
| `ClassroomText.CollapseSeparatorsSpec` | dist-firefox/ClassroomTextProcessor.js:127-130 | after the thirteenth replacement (line 130), which ends the separator stage, no two separators are neighbours |
| `ClassroomText.TrimEdgesKeepsApart` | dist-firefox/ClassroomTextProcessor.js:131-133 | the last three steps only cut off ends, so separators stay apart |
| `ClassroomText.CleanupTextSpec` | dist-firefox/ClassroomTextProcessor.js:117-135 | `cleanupText` returns a text with no separator or hyphen at either end, no two neighbouring separators, and no more characters than its input |
| `ClassroomText.ReplaceAllInert` | dist-firefox/ClassroomTextProcessor.js:119-130 | a global replacement over text none of whose characters can start a match changes nothing |
| `ClassroomText.CleanupTextKeepsInert` | dist-firefox/ClassroomTextProcessor.js:117-135 | text without separators, hyphens, `2` or `ワ` comes out of `cleanupText` unchanged |
| `ClassroomText.FirstMatch` | dist-firefox/ClassroomTextProcessor.js:73-76 | the pattern found is the first in table order that matches, with its captures |
| `ClassroomText.ClassroomTextProcessor.PickText` | dist-firefox/ClassroomTextProcessor.js:72-112 | the loop with its `break` and the `さんが` fallback pick exactly the text and flag `Picked` describes |
| `ClassroomText.ClassroomTextProcessor.ProcessTextInElement` | dist-firefox/ClassroomTextProcessor.js:64-116 | text without `さんが` leaves the element untouched; otherwise the element ends with the text and flag `Process` gives |
| `ClassroomText.ProcessFlagsIff` | dist-firefox/ClassroomTextProcessor.js:72-112 | the element ends flagged iff it was flagged already, or its text has `さんが` and a pattern matches or something follows `さんが` |
| `ClassroomText.FirstMatchingPatternWins` | dist-firefox/ClassroomTextProcessor.js:73-99 | the first matching pattern `i` sets the text to what it keeps of the match, cleaned up, and flags the element. Patterns 0 and 3 keep group 3. Patterns 1 and 2 keep group 4, else group 3. Pattern 4 keeps trimmed group 3 if non-blank, else group 2. Any other pattern keeps group 2 |
| `ClassroomText.ClassroomTextProcessor.SangaFallback` | dist-firefox/ClassroomTextProcessor.js:102-111 | with no pattern matching, the element ends with the text and flag that `Picked` gives, which `FallbackAfterSanga` spells out |
| `ClassroomText.FallbackAfterSanga` | dist-firefox/ClassroomTextProcessor.js:102-111 | with no pattern matching, a non-empty trimmed remainder after the first `さんが` becomes the text; otherwise text and flag stay |
| `ClassroomText.ProcessedTextIsClean` | dist-firefox/ClassroomTextProcessor.js:113-115 | whatever a processed element ends up showing satisfies the `cleanupText` guarantees |

## Left out

- **DOM wiring.** Left out are:
  - mutation observers, interval discovery, DOM-ready handling and `destroy`;
  - `processElementsInNode`;
  - creating the search box and its event handlers;
  - `checkAndSetupDropdown` and `processExistingDropdowns`.

  These are browser plumbing.
- **Debounce timers** around filtering are left out. They are timer-driven.
- **The delayed reordering.** `setTimeout` in `setupDropdown` is modelled as one entry per call in `scheduled`. The later `reorderDropdown` run is the separate method `ReorderDropdown`.
- **The click listener.** A `mousedown` listener is modelled as one entry in `listeners`. Its handler is `IncrementUsage`.
- **`preventDefault` and `scrollIntoView`** in keyboard handling are left out. They have no state in the model.
- **Persistence.** `loadUsage`, `saveUsage` and `localStorage` are I/O. The tracker's constructor takes the stored counts as a parameter.
- **Library conversions.** Wanakana, `normalize("NFKC")` and `toLowerCase` are uninterpreted functions. Unicode normalization is not specified.
- **The `constants` module** is not part of this model. This covers the substitution rules, the notice patterns and the selectors.
- **Regular-expression matching of the notice patterns** is an oracle. The seven unanchored and eight anchored regular expressions of `cleanupText` are written out as scans.
- **Prototype lookups.** `readingDictionary[normalized]` and `usage[key]` are property lookups on plain objects, so a key such as `constructor` would reach `Object.prototype`. The model uses a plain table and a plain map instead.
- **Integer counts.** Counts are unbounded integers; JavaScript numbers lose precision past 2^53.
- **String indices.** Strings are sequences of characters, not UTF-16 code units. Texts with surrogate pairs can have different indices.
- **Visibility.** A visible item is one that is not hidden. The source tests `offsetParent !== null`, which is also null for other layout reasons.
- **`querySelector(".gc-active")`** is taken to find the first active item of the dropdown.
- **Item subtrees** are flat: text nodes and highlight spans directly under the item. Nested markup inside an item is not modelled.
- **The item list** of a dropdown is whatever the selectors return at the time of the call. The model takes it as the dropdown's current `items` and assumes it has no duplicates.
- **The `try`/`catch` blocks** of the usage tracker are left out. Nothing in the modelled code throws.
- **The second guard of `processTextInElement`** (flagged and without `さんが`) can never fire after the first, so it has no branch of its own.
- **Untouched files.** The compiled `dist-firefox/DropdownUsageTracker.js` and the legacy `content.js` repeat logic already modelled. The type-declaration files, entry points and build scripts hold no behaviour.
- **Empty substitution keys.** The romaji substitution rules must have non-empty `from` strings (`ValidRules`). With an empty one, `indexOf("", pos)` never returns -1 and the source's while loop never ends, so the model leaves that table out.
- `ReadingDictionary.ResolveReading` inserts the reading literally. JavaScript's `replace` with a string replacement expands `$&`, `$$`, `` $` `` and `$'` in it. No reading of the extension's table contains `$`, so `GetReadingWithFallback` is unaffected; over other tables the model is exact only for readings without `$`.
- `DropdownSearch.HighlightMatch` speaks only of texts whose lower-cased form has the same length as the text itself. For other texts the source applies an index found in the lower-cased text to the original text, and the model does the same without a lemma about where the span falls.
- `UsageTracker.DropdownUsageTracker.ReorderDropdown` states the result of the sort through an insertion-sort function. The comparator is a strict total order on entries with distinct indices, so any correct sort gives the same order. It does not model `Array.prototype.sort` in place.
