# coc-tailwindcss3 core, modelled in Dafny

This project models the logic at the centre of the coc-tailwindcss3 editor
extension and proves properties of it:

- **The Headwind class sorter** (`src/headwind.ts`). `sortClassString`
  splits a class attribute on whitespace runs and can drop repeated classes.
  It moves the classes listed in the configured sort order to the front,
  sorted by their position there, keeps the unlisted classes after them in
  their original order, and joins the result with single spaces. The
  `sortTailwindClasses` command picks the value capture of every
  class-wrapper match, computes its document offsets, and produces one edit
  per match.
- **The array utilities** (`src/util/array.ts`). `dedupe` keeps first
  occurrences. `equal` compares two arrays as multisets by sorting copies.
- **The colour highlighter** (`src/color.ts`). `getHlGroup` names a
  highlight group after a colour and remembers the colours it has named in
  the `cacheHlGroups` set. `fixNum` pads a hexadecimal byte to two digits.
  `attchHighlight` builds the `hi` script for new colours and groups the
  colour ranges by highlight group.
- **The workspace bookkeeping** (`src/index.ts`). The memoised list of
  workspace-folder URIs is normalised to end in `/` and sorted by length.
  `getOuterMostWorkspaceFolder` looks for the outer-most folder containing a
  given one. The per-folder language lists decide when a language client is
  restarted after an `includeLanguages` change.

`src/index.ts` holds verbatim copies of `getHlGroup`, `fixNum` and the
highlighting steps of `attchHighlight`, with a cache of its own. The `Color`
members model both copies, and the rows below cite both places where the
copy matters.

Modules:

| module | file | models |
|---|---|---|
| `JsArray` | js_array.dfy | `Array.prototype.indexOf`, and the stable `sort` with a key comparator |
| `JsString` | js_string.dfy | `split(/\s+/)`, `join`, `lastIndexOf`, `startsWith`, and `toString(16)` on bytes |
| `ArrayUtil` | array_util.dfy | src/util/array.ts |
| `Headwind` | headwind.dfy | src/headwind.ts |
| `Color` | color.dfy | src/color.ts and its copy in src/index.ts |
| `Extension` | workspace.dfy | src/index.ts |
| `Wrappers` | wrappers.dfy | an `Option` type |

Modelling choices:

- **Regular-expression matches** are inputs: records holding the match
  index, the matched text and the captures. The regex engine is not
  modelled.
- **The workspace-folder lookup** (`workspace.getWorkspaceFolder`) is a
  function parameter.
- **The editor's folder list** is a parameter, and is absent when the editor
  has none.
- **Where the source throws, the model returns an error value.** This
  covers reading the length of `undefined` in `equal`, and a match with no
  truthy capture.
- **The JavaScript `sort` with comparator `key(a) - key(b)`** is stable, as
  the language requires. It is modelled once, as `JsArray.StableSortBy`, and
  used for both the rank sort and the length sort. Its uniqueness lemma
  (`JsArray.StableSortByUnique`) makes any sorted, order-keeping
  rearrangement equal to it. This gives the class sorter an independent
  reference definition.
- **Language clients** are `true` once started and `false` while the map
  holds `null`.

## Model

| member | source | states |
|---|---|---|
| JsArray.IndexOf | src/headwind.ts:21 | `indexOf` gives -1 exactly when the element is absent, and otherwise an index holding it |
| JsArray.IndexOfFirst | src/headwind.ts:21 | no earlier index holds the element: `indexOf` finds the first occurrence |
| JsArray.StableSortBy | src/headwind.ts:22 | the sorted copy has the input's length |
| JsArray.StableSortByOrdered | src/headwind.ts:22 | the sorted copy is in non-decreasing key order |
| JsArray.StableSortByPermutation | src/headwind.ts:22 | the sorted copy is a permutation of the input |
| JsArray.StableSortByWithKey | src/headwind.ts:22 | stability: elements with the same key keep their input order |
| JsArray.StableSortBySorted | src/index.ts:82-84 | sorting an already sorted sequence changes nothing |
| JsArray.SortedByUnique | src/headwind.ts:22 | two sorted sequences with the same elements under every key, in the same order, are equal |
| JsArray.StableSortByUnique | src/headwind.ts:22 | every sorted, stable rearrangement of the input is the result of the sort |
| JsArray.NoDuplicatesPermutation | src/headwind.ts:26 | rearranging a duplicate-free list keeps it duplicate-free |
| JsString.TokenEnd | src/headwind.ts:8 | a piece runs from its start up to the first whitespace character or the end |
| JsString.RunEnd | src/headwind.ts:8 | a whitespace run extends up to the first non-whitespace character or the end |
| JsString.SplitWhitespace | src/headwind.ts:8 | `split(/\s+/)` yields at least one piece |
| JsString.SplitFromPieces | src/headwind.ts:8 | no piece of a tail contains whitespace, and the empty tail gives `[""]` |
| JsString.SplitWhitespacePieces | src/headwind.ts:8 | no piece contains whitespace, and `""` splits into `[""]` |
| JsString.SplitFromInner | src/headwind.ts:8 | pieces strictly between the first and the last are never empty |
| JsString.SplitFromLast | src/headwind.ts:8 | the last piece is empty exactly when the tail is empty or the string ends with whitespace |
| JsString.SplitWhitespaceEnds | src/headwind.ts:8 | only the first and last pieces can be empty, and each is empty exactly when the input starts or ends with whitespace |
| JsString.JoinLength | src/headwind.ts:16 | joining with `' '` adds one character between neighbouring parts |
| JsString.JoinLengthPermutation | src/headwind.ts:16 | rearranged parts join to a string of the same length |
| JsString.JoinStartsWithFirst | src/color.ts:79 | a join of a non-empty list starts with its first part |
| JsString.SplitJoin | src/headwind.ts:8-16 | splitting the join of whitespace-free parts (inner ones non-empty) gives the parts back |
| JsString.SplitFromJoin | src/headwind.ts:8-16 | the same for a join that forms the tail of a longer string |
| JsString.JoinSplit | src/headwind.ts:8-16 | joining the pieces of a single-spaced string gives the string back |
| JsString.JoinSplitFrom | src/headwind.ts:8-16 | the same for every tail of a single-spaced string |
| JsString.LastIndexOfProperties | src/headwind.ts:79 | `lastIndexOf` is -1 or an occurrence, and no occurrence lies to its right |
| JsString.LastIndexAtOrBeforeProperties | src/headwind.ts:79 | the backward search up to `i` finds an occurrence or -1, with no occurrence between it and `i` |
| JsString.ByteToHex | src/color.ts:37-39 | `n.toString(16)` for a byte is hexadecimal digits worth `n`: one digit below 16, two from 16 on |
| ArrayUtil.DedupeProperties | src/util/array.ts:3-5 | the result has no duplicates, holds exactly the input's elements, and keeps first-occurrence order |
| ArrayUtil.KeepFirstOccurrencesProperties | src/util/array.ts:4 | the filter `indexOf(value) === index` over a suffix of the indices keeps exactly the first occurrences, in order |
| ArrayUtil.KeepFirstOccurrencesKept | src/util/array.ts:4 | every kept element has its first occurrence in the suffix |
| ArrayUtil.KeepFirstOccurrencesComplete | src/util/array.ts:4 | every element whose first occurrence is in the suffix is kept |
| ArrayUtil.KeepFirstOccurrencesOrdered | src/util/array.ts:4 | the kept elements are in the order of their first occurrences |
| ArrayUtil.DedupeIdentity | src/util/array.ts:4 | `dedupe` is the identity on duplicate-free input |
| ArrayUtil.DedupeIdempotent | src/util/array.ts:4 | `dedupe` applied twice is `dedupe` applied once |
| ArrayUtil.DedupeSnoc | src/util/array.ts:4 | appending one element extends the result by it exactly when it is new |
| ArrayUtil.DedupePrefix | src/util/array.ts:4 | `dedupe(s)` is a prefix of `dedupe(s.concat(t))` |
| ArrayUtil.InsertLex | src/util/array.ts:11-12 | inserting adds exactly that element, once |
| ArrayUtil.InsertLexSorted | src/util/array.ts:11-12 | inserting into a sorted list keeps it sorted, with the new element or the old head first |
| ArrayUtil.SortStrings | src/util/array.ts:11-12 | `concat().sort()` has the array's length and is a permutation of it |
| ArrayUtil.SortStringsSorted | src/util/array.ts:11-12 | `concat().sort()` is sorted |
| ArrayUtil.SortStringsEqual | src/util/array.ts:11-18 | the sorted copies of two arrays are equal exactly when the arrays are equal as multisets |
| ArrayUtil.LexSortedUnique | src/util/array.ts:11-18 | two sorted lists with the same multiset are equal element-wise |
| ArrayUtil.Equal | src/util/array.ts:7-19 | `equal(a, b)` holds iff `a` and `b` are equal as multisets, and is false when the lengths differ; it modifies neither array |
| ArrayUtil.EqualSymmetric | src/util/array.ts:8-18 | `equal` is symmetric and reflexive |
| Headwind.InsertNew | src/headwind.ts:26 | adding tokens to a `Set` that holds `seen` adds only tokens from the input that are not in `seen` |
| Headwind.RemoveDuplicates | src/headwind.ts:26 | `[...new Set(classArray)]` holds only input tokens |
| Headwind.InsertNewSnoc | src/headwind.ts:26 | one more token is added at the end exactly when it is new |
| Headwind.RemoveDuplicatesIsDedupe | src/headwind.ts:26 | `removeDuplicates` equals `dedupe`: every distinct token once, in first-occurrence order |
| Headwind.Ranked | src/headwind.ts:21 | the filtered tokens are all listed in the sort order |
| Headwind.Unranked | src/headwind.ts:23 | the filtered tokens are none of them listed in the sort order |
| Headwind.RankedUnrankedPartition | src/headwind.ts:19-24 | the two filters partition the tokens, as multisets |
| Headwind.SortClassArrayPermutation | src/headwind.ts:19-24 | `sortClassArray` is a permutation of its input |
| Headwind.SortedRankedListed | src/headwind.ts:21-22 | after the rank sort, every token still has an index in the sort order |
| Headwind.SortClassArrayOrdered | src/headwind.ts:19-24 | every ranked token precedes every unranked one, and the ranked ones are in non-decreasing rank |
| Headwind.WithSortKey | src/headwind.ts:21-23 | selecting by position key is selecting by rank, with unranked tokens at one past the last rank |
| Headwind.RankedWithKey | src/headwind.ts:21-23 | each filter keeps the input order of the tokens that share a rank |
| Headwind.SortClassArrayStable | src/headwind.ts:19-24 | tokens of equal rank, and the unranked tokens, keep their input order |
| Headwind.SortClassArrayIsStableSort | src/headwind.ts:19-24 | `sortClassArray` equals one stable sort of all tokens by position key |
| Headwind.SortClassArrayIdempotent | src/headwind.ts:19-24 | sorting a sorted token list again changes nothing |
| Headwind.SortClassArrayEmptyOrder | src/headwind.ts:19-24 | with an empty sort order no token moves |
| Headwind.ClassTokensShape | src/headwind.ts:8-12 | for trimmed input the tokens hold no whitespace and, unless the input is empty, none is empty |
| Headwind.SortedTokensShape | src/headwind.ts:14 | the sorted list keeps those token properties |
| Headwind.SortClassStringTokens | src/headwind.ts:7-17 | for trimmed input the output splits back into exactly the sorted token list, joined by single spaces |
| Headwind.ClassTokensDeduplicated | src/headwind.ts:8-12 | with removal on, the tokens are `dedupe` of the split: every distinct token once |
| Headwind.SortClassStringIdempotent | src/headwind.ts:7-24 | for trimmed input, applying `sortClassString` twice equals applying it once |
| Headwind.SortClassStringLength | src/headwind.ts:7-17 | without removal, single-spaced input keeps its length |
| Headwind.SortClassStringEmptyOrder | src/headwind.ts:7-24 | with an empty order and no removal, single-spaced input is returned unchanged |
| Headwind.SortClassStringExample | src/headwind.ts:7-24 | `"text-white bg-black flex"` with order `["flex","bg-black","text-white"]` becomes `"flex bg-black text-white"` |
| Headwind.ExampleStrings | src/headwind.ts:16 | the joins in the example are the literal strings |
| Headwind.SortReversedThree | src/headwind.ts:7-24 | three distinct classes written in reverse rank order come out in rank order |
| Headwind.ReversedThree | src/headwind.ts:19-24 | the same, on token lists |
| Headwind.ValueGroupIndex | src/headwind.ts:76 | `findIndex` gives the first truthy capture, and none exactly when no capture is truthy |
| Headwind.ValueSpanSlice | src/headwind.ts:79-80 | when the wrapper is the text at the match index, the span lies inside it and `text[start..end)` is the value |
| Headwind.ValueSpanNotInWrapper | src/headwind.ts:79 | a value absent from the wrapper gets a span starting one before the match |
| Headwind.QuotedValueSpan | src/headwind.ts:75-80 | for `before + value + '"'` the span covers the value right after `before` |
| Headwind.ValueSpanClassExample | src/__tests__/headwind.test.ts:13-42 | `class="h-screen"` yields the value `h-screen` and its span |
| Headwind.ValueSpanClassNameExample | src/__tests__/headwind.test.ts:14-42 | the `className` attribute yields `w-64 h-full bg-blue-400 relative` and its span |
| Headwind.SortTailwindClasses | src/headwind.ts:74-90 | one edit per match, in order, each the sorted value over its span; it throws exactly when some match has no truthy capture, and stops at the first such match |
| Headwind.EditKeepsLength | src/headwind.ts:82-89 | without removal, an edit of a single-spaced value keeps the span's length, so later offsets stay valid |
| Color.ColorOfGroup | src/color.ts:13-23 | a name with the group prefix is the group name of the colour it gives back |
| Color.HlGroupNameRoundTrip | src/color.ts:17-23 | the group name of a colour has the prefix and gives the colour back |
| Color.HlGroupNameInjective | src/color.ts:17-23 | different colours get different group names |
| Color.FixNum | src/color.ts:25-30 | `fixNum` adds a single `'0'` in front of input shorter than 2 characters, and otherwise returns the input |
| Color.HexValueLeadingZero | src/color.ts:27 | the padding zero does not change the hexadecimal value |
| Color.HexValueAppend | src/color.ts:37-39 | concatenated digits are worth the first part shifted past the second |
| Color.FixNumByte | src/index.ts:49-54 | `fixNum(n.toString(16))` for a byte is two digits worth `n` |
| Color.HexOfBytesValue | src/color.ts:35-41 | three channel bytes give six hexadecimal digits worth `r*65536 + g*256 + b` |
| Color.HexOfBytesInjective | src/color.ts:35-41 | different channel bytes give different colour names |
| Color.HighlightCache.constructor | src/color.ts:15 | the cache starts empty |
| Color.HighlightCache.GetHlGroup | src/color.ts:17-23 | the flag is true iff the colour was cached, the name is `coc_tailwind_` + colour, and the cache gains exactly that colour (same for src/index.ts:41-47) |
| Color.RepeatedColor | src/color.ts:18-21 | of two calls with the same colour, the second always reports it cached |
| Color.HighlightCache.AnnotateUnits | src/color.ts:68-75 | every unit gets its colour's group and keeps its range; `have` is false exactly for the first occurrence of each uncached colour; the cache gains the batch's colours |
| Color.AnnotatedSnoc | src/color.ts:68-75 | one more annotated unit extends the annotation |
| Color.FirstOccurrence | src/color.ts:68-79 | every unit's colour has a first occurrence at or before it |
| Color.FirstOccurrenceIsNew | src/color.ts:68-79 | an uncached colour has a unit with `have == false` and the same group |
| Color.RenderHi | src/color.ts:78 | a definition line is never empty |
| Color.RenderLines | src/color.ts:76-78 | one line per definition, in order |
| Color.ScriptTextEmpty | src/color.ts:82-84 | the script is non-empty, so `nvim.exec` runs, exactly when it holds a definition |
| Color.ScriptCommandsAsWritten | src/color.ts:76-78 | as written, each line defines `coc_tailwind_` + the group name, with the group name as its colour, for a unit with `have == false` |
| Color.ScriptCommands | src/color.ts:76-78 | corrected: one definition `hi <group> guibg=#<colour>` for each unit with `have == false`, and no others |
| Color.ScriptCommandsNonEmpty | src/color.ts:76-84 | the script has a definition iff some colour of the batch was not cached |
| Color.ScriptDefinesUsedGroups | src/color.ts:76-100 | every group used for highlighting is defined by the script or was defined before |
| Color.ScriptDefinesNewColors | src/color.ts:76-79 | each definition gives a new colour its own group, and the defined groups are exactly those of the uncached colours |
| Color.ScriptAsWrittenDefinesNoUsedGroup | src/color.ts:78 | as written, no defined group is one the ranges use, and no `guibg` value is hexadecimal |
| Color.ScriptAsWrittenExample | src/index.ts:346 | one new six-digit colour is highlighted with a group the script never defines |
| Color.GroupNames | src/color.ts:86-97 | the units' groups, in order |
| Color.RangesOfMember | src/color.ts:86-97 | every unit's range is listed under its group, and a group without units has no ranges |
| Color.GroupRanges | src/color.ts:86-97 | one entry per group in first-appearance order, holding that group's ranges in input order |
| Color.GroupedEntries | src/color.ts:86-97 | at the end of the `reduce` every key's list is its group's ranges |
| Color.FirstGroupsIsDedupe | src/color.ts:86-97 | the map's insertion order is `dedupe` of the units' groups |
| Color.GroupedExisting | src/color.ts:89-90 | pushing onto an existing group's list keeps the `reduce` state exact |
| Color.GroupedNew | src/color.ts:92-93 | setting a new group's list keeps the `reduce` state exact |
| Color.GroupedKeys | src/color.ts:88-96 | after a step the map's keys are the groups seen so far |
| Color.GroupedValues | src/color.ts:88-96 | after a step every list holds its group's ranges so far |
| Color.HighlightCache.AttachHighlight | src/color.ts:68-100 | annotation, cache update, the script (non-empty iff a colour was new), and the grouped entries, together (same for src/index.ts:336-368) |
| Extension.WithTrailingSlash | src/index.ts:76-79 | the result ends in `/`, starts with the URI and adds at most one character; it is the URI exactly when the URI already ends in `/` |
| Extension.WithTrailingSlashIdempotent | src/index.ts:94-96 | normalising twice is normalising once |
| Extension.Normalised | src/index.ts:75-80 | every folder URI is normalised, in place |
| Extension.SortedFolderListProperties | src/index.ts:73-85 | the list is a permutation of the normalised URIs in non-decreasing length order, with equal lengths in folder order |
| Extension.SortedFolderListSlashes | src/index.ts:76-84 | every listed URI ends in `/` |
| Extension.FirstHit | src/index.ts:92-103 | the first entry that is a prefix of the URI and names a folder; none exactly when no entry does |
| Extension.FirstHitShortest | src/index.ts:82-103 | on the length-sorted list the first hit is a shortest hit |
| Extension.OuterMostChoice | src/index.ts:90-105 | the result is the folder named by a shortest matching prefix, or the input folder when no prefix names a folder |
| Extension.FirstHitAt | src/index.ts:97-101 | a hit with no earlier hit is the first hit |
| Extension.Uris | src/index.ts:73-76 | the folders' URIs, in order |
| Extension.FolderIndex.constructor | src/index.ts:70 | the memo starts unset, so the invariant (a memoised list is length-sorted and every entry ends in `/`) holds |
| Extension.FolderIndex.SortedWorkspaceFolders | src/index.ts:71-88 | computed from the current folders (none when absent) the first time, then the memo is returned unchanged; the invariant is kept |
| Extension.FolderIndex.ResetSortedFolders | src/index.ts:378 | a workspace-folder change forgets the memo, keeping the invariant |
| Extension.FindOuterMost | src/index.ts:92-104 | the loop returns the folder named by the first listed prefix of the normalised URI that `getWorkspaceFolder` resolves, or the input folder after the loop (the function `OuterMost`, whose choice `Extension.OuterMostChoice` characterises) |
| Extension.FolderIndex.GetOuterMostWorkspaceFolder | src/index.ts:90-105 | the result is the folder named by a shortest listed prefix of the folder's normalised URI, or the folder itself when none names a folder; the list is the memo, computed from the current folders exactly when it was unset; the invariant is kept |
| Extension.MergeLanguagesProperties | src/index.ts:171 | the merged list has no duplicates, holds exactly the defaults and the user languages, and begins with the (deduplicated) defaults |
| Extension.LanguageRegistry.constructor | src/index.ts:67-68 | both maps start empty, and the invariant holds |
| Extension.LanguageRegistry.BootWorkspaceClient | src/index.ts:187-272 | nothing happens for a folder with a client; otherwise the folder gets a started client (stored at lines 270-271), and a merged language list unless it has one; the invariant that every client has a list is kept |
| Extension.LanguageRegistry.StoreIfChanged | src/index.ts:172-173 | fails when no list is stored; otherwise the list is replaced exactly when it is not multiset-equal to the new one |
| Extension.LanguageRegistry.OnIncludeLanguagesChange | src/index.ts:170-179 | the merged list replaces the stored one exactly when they differ as multisets; a started client is then restarted, and the invariant is kept |

## Left out

- The regular-expression engine, including the `gi` flags and the advancing `lastIndex` (src/headwind.ts:72-74). Matches are an input list.
- Applying edits in the editor (`positionAt`, `Range.create`, `applyEdits`, src/headwind.ts:82-89). `Headwind.EditKeepsLength` states when the offsets, all taken from one snapshot, stay valid.
- Headwind.SortTailwindClasses: returns the edits instead of applying them one by one.
- The `sortTailwindClassesOnWorkspace` command (src/headwind.ts:93-117), because it runs the external rustywind binary.
- src/headwind/headwindFeature.ts: only command and configuration wiring. The sorter it imports comes from src/headwind/headwindUtils.ts, and headwindUtils.ts is not part of this model.
- The colour conversion `toHexCons` on floating-point channels (src/color.ts:35-41, src/index.ts:59-65). `Color.HexOfBytes` covers integer byte channels only.
- The language-server plumbing and I/O: `LanguageClient` start and stop, file watchers, glob exclusion, the `documentColor` request, `nvim.exec`, `highlightRanges` and the output channel (src/index.ts:112-399, src/color.ts:43-66, src/color.ts:80-84, src/color.ts:98-100).
- `Color.HighlightCache.AttachHighlight` returns the script text and the grouped ranges instead of sending them to the editor.
- The iteration of `clients.forEach` and the `getWorkspaceFolder` / `affectsConfiguration` checks of the configuration handler (src/index.ts:163-169). `Extension.LanguageRegistry.OnIncludeLanguagesChange` is the body for one client whose `includeLanguages` changed.
- The shape check of the user languages (`isObject`, src/util/isObject.ts). The user language identifiers are an input list.
- src/config.ts, src/constants.ts, src/util/languages.ts and src/completions/dashForce.ts: configuration reads, constant tables and editor UI.
- Offsets and lengths (`match.index`, `lastIndexOf`, `.length`, the edit spans of `Headwind.SortTailwindClasses`, and the lengths in `Headwind.SortClassStringLength` and `Headwind.EditKeepsLength`) are counted in Unicode code points, whereas JavaScript counts UTF-16 code units. Spans therefore differ from the source's for text holding characters outside the Basic Multilingual Plane.
- ArrayUtil.SortStrings: compares characters by code point, whereas the JavaScript default `sort()` compares UTF-16 code units. `ArrayUtil.Equal` is proved equal to multiset equality, which does not depend on the order used.
- `a === b` in `equal` is reference identity on arrays. The model keeps it as the `a == b` test on `array` references.
- Color.HighlightCache.AttachHighlight: builds the script with the corrected `Color.ScriptCommands`, not the template as written (see Findings).

## Findings

| source | as written | input that shows it | evidently intended | confidence | as-written member | corrected member |
|---|---|---|---|---|---|---|
| src/color.ts:78 (and its copy at src/index.ts:346) | ``hi ${hlPrefix}_${hg.group} guibg=#${hg.group}``: `hg.group` already is `coc_tailwind_<hex>`, so the line defines `coc_tailwind_coc_tailwind_<hex>` with colour `#coc_tailwind_<hex>` | one new colour `ff0000`: the script is `hi coc_tailwind_coc_tailwind_ff0000 guibg=#coc_tailwind_ff0000`, while the range is highlighted with `coc_tailwind_ff0000` | define the group the ranges use, `hi coc_tailwind_<hex> guibg=#<hex>` | not executed | Color.ScriptAsWrittenDefinesNoUsedGroup | Color.ScriptDefinesUsedGroups |
