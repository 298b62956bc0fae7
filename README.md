# Lexa page-translation core, modelled in Dafny

Lexa is a browser extension that swaps phrases on a web page for interactive
translation widgets. It also tracks how well the learner knows each phrase and
signs users in with an e-mailed one-time password. This project models four
parts of it and proves what they promise:

- **The text-segment replacement engine** (`src/lib/replaceTextSegments.ts`).
  It normalises text by collapsing whitespace, trimming and lower-casing.
  It builds a flat, globally addressed search buffer (the *text map*) from the
  page's eligible text nodes. It finds word-boundary occurrences of each
  translation's phrase and picks the first one whose surroundings contain the
  phrase's context. It clips that occurrence back onto the text nodes it
  spans, and maps the normalised offset back into the node's raw text. At the
  end it replaces the matches from the end of the page to its start.
- **Phrase progress** (`src/queries/user-phrase.ts`). This covers the mastery
  classifier, the lookup of one phrase in the cached list, and the optimistic
  upsert made before the server answers. It also covers the rollback and the
  write of the server's row.
- **OTP expiry arithmetic** (`src/lib/otpStorage.ts`). This covers
  `isExpired`, `getRemainingTime` and the `m:ss` string of its debug helper.
- **The OTP entry widget** (`src/components/OtpInput.tsx`). This is a class whose
  fields `otp`, `timeLeft` and `canResend` are the component's state. Its methods
  are the change, backspace, paste and resend handlers, the countdown tick,
  the reset effect and the expired branch of the countdown effect.

## Layout

**Modules and files**

| module (file) | contents |
|---|---|
| `Wrappers` (`wrappers.dfy`) | `Option` |
| `JsText` (`js_text.dfy`) | The JavaScript string primitives used: the `\s`/`trim` whitespace class, the regex word class, ASCII `toLowerCase`, `indexOf` with its clamped start, `substring` and `includes` |
| `Normalize` (`normalize.dfy`) | `normalizeText` and the shape of its output |
| `TextMapping` (`text_map.dfy`) | The tree walker's filter and `buildTextMap` |
| `WordBoundary` (`word_boundary.dfy`) | `findWordBoundaryMatches` as the `\b…\b` `gi` regex loop |
| `Spanning` (`spanning.dfy`) | `getSpanningNodes` |
| `PositionMapping` (`position_map.dfy`) | `mapNormalizedToOriginalPosition` |
| `ReplaceSegments` (`replace_segments.dfy`) | `findMatch`, `replaceAtPosition` and `replaceTextSegments` |
| `UserPhrases` (`user_phrase.dfy`) | The phrase-progress cache logic |
| `TimeFormat` (`time_format.dfy`) | `m:ss` formatting, shared by `formatTime` and the OTP debug helper |
| `OtpStorage` (`otp_storage.dfy`) | Expiry and remaining time |
| `OtpInputs` (`otp_input.dfy`) | The OTP widget |

**How the page is represented**

- A page is the sequence of its text nodes in document order.
- Each text node carries its text and its chain of ancestor elements, each element with a tag name and a class list.
- A node's identity is its position in that sequence.

**How methods are specified**

- Each imperative routine of the source is a `method` with its loop.
- Each method is proved equal to a specification function: `BuildTextMap` to `TextMapOf`, `FindWordBoundaryMatches` to `WordBoundaryMatches`, `GetSpanningNodes` to `SpansOf`, `MapNormalizedToOriginalPosition` to `Remap`, `FindMatch` to `FindMatchSpec`, and `ReplaceTextSegments` to `ReplaceTextSegmentsSpec`.
- The properties the source promises are proved as lemmas about those functions.
- A few loops were lifted out of their method into a helper method. The helper has the same loop and a contract of its own, and exists only to keep each proof small:
  - `FirstAccepted` is the loop of `findMatch`;
  - `CollectMatches` is the `map`/`filter`;
  - `ReplaceAll` is the final `for` loop;
  - `WalkToIndex` is the two-counter walk;
  - `AcceptNode` and `NormalizeNode` are the per-node steps of `buildTextMap`.

**How mounting is represented**

- Mounting is the emitted action `Mount(node, start, end, translation, globalOffset)`.
- The node texts are threaded through the replacement loop as a `map<nat, string>`.
- Mounting over `[start, end)` of a text node leaves that node holding `text[..start]`. The range `[start, end)` is deleted and the mounted element holding the translation takes its place. `text[end..]` becomes a new text node after it, and the model does not track that node.
- As a result, a later, lower-offset match in the same node reads the shortened text.

## Model

| member | source | states |
|---|---|---|
| `JsText.LowerChar` | src/lib/replaceTextSegments.ts:131 | ASCII lower-casing keeps whitespace-ness and word-ness, leaves no capital, and fixes every non-capital. |
| `JsText.Lower` | src/lib/replaceTextSegments.ts:131 | `toLowerCase` keeps the length and lower-cases character by character. |
| `JsText.IndexOfSpec` | src/lib/replaceTextSegments.ts:337-340 | `indexOf(t, from)` is -1 exactly when `t` does not occur at or after the clamped start. Otherwise it is the first occurrence there. |
| `JsText.IndexFrom` | src/lib/replaceTextSegments.ts:337-340 | The search from a start position returns -1, or an index at or after it from which the target fits inside the text. That the target occurs there, first, is `IndexOfSpec`. |
| `JsText.IncludesSpec` | src/lib/replaceTextSegments.ts:166 | `includes` holds exactly when the context occurs somewhere in the window. |
| `JsText.ClampIndex` | src/lib/replaceTextSegments.ts:164 | `substring` and `indexOf` clamp an index into `[0, length]`. |
| `Normalize.TrimStart` | src/lib/replaceTextSegments.ts:130 | The leading half of `trim` never lengthens the text. |
| `Normalize.TrimEnd` | src/lib/replaceTextSegments.ts:130 | The trailing half of `trim` never lengthens the text. |
| `Normalize.TrimStartSpec` | src/lib/replaceTextSegments.ts:130 | `trim` drops exactly the leading whitespace run: the result is a suffix that does not start with whitespace. |
| `Normalize.TrimEndSpec` | src/lib/replaceTextSegments.ts:130 | The same for the trailing run. |
| `Normalize.Collapse` | src/lib/replaceTextSegments.ts:129 | `replace(/\s+/g, ' ')` never lengthens the text, and the first character is a space exactly when the input starts with whitespace. |
| `Normalize.CollapseIsCollapsed` | src/lib/replaceTextSegments.ts:129 | After collapsing, every whitespace character is a plain space and no two are adjacent. |
| `Normalize.CollapseRun` | src/lib/replaceTextSegments.ts:129 | A whitespace run between two non-whitespace characters becomes exactly one space. The text on either side collapses on its own. |
| `Normalize.TrimStartSpaces` | src/lib/replaceTextSegments.ts:129-130 | A leading whitespace run that ends before a non-whitespace character is dropped whole, and nothing after it. |
| `Normalize.TrimStartKeepsTail` | src/lib/replaceTextSegments.ts:129-130 | Trimming the start of a text that holds a non-whitespace character stops inside it. |
| `Normalize.CollapseOfCollapsed` | src/lib/replaceTextSegments.ts:129 | Collapsing text that is already collapsed changes nothing. |
| `Normalize.NormalizeText` | src/lib/replaceTextSegments.ts:127-132 | The output of `normalizeText` has no leading, trailing or doubled whitespace, no whitespace but plain spaces, and no capitals. It is never longer than the input. |
| `Normalize.NormalIsFixed` | src/lib/replaceTextSegments.ts:127-132 | `normalizeText` leaves a string of that shape unchanged. |
| `Normalize.NormalizeIdempotent` | src/lib/replaceTextSegments.ts:127-132 | `normalizeText` is idempotent. |
| `Normalize.NormalizeKeepsNonSpaces` | src/lib/replaceTextSegments.ts:127-132 | Punctuation and every other non-whitespace character survive, lower-cased and in order. |
| `Normalize.NormalizeEmptyIff` | src/lib/replaceTextSegments.ts:127-132 | The result is `''` exactly for whitespace-only input. |
| `Normalize.TrimEmptyIff` | src/lib/replaceTextSegments.ts:91 | `text.trim().length === 0` exactly for whitespace-only text. |
| `Normalize.NonBlankNormalizesNonEmpty` | src/lib/replaceTextSegments.ts:91 | Text the walker accepts normalises to a non-empty string. |
| `Normalize.NormalizeOneChar` | src/lib/replaceTextSegments.ts:355-356 | `normalizeText` of one character is `''` for whitespace and the lower-cased character otherwise. |
| `TextMapping.Accepts` | src/lib/replaceTextSegments.ts:71-96 | A node the filter accepts normalises to non-empty text, so it always adds to the search buffer. |
| `TextMapping.SelectedSpec` | src/lib/replaceTextSegments.ts:104 | The walker visits exactly the accepted positions, in increasing document order. |
| `TextMapping.AcceptFlagsSpec` | src/lib/replaceTextSegments.ts:71-96 | Every acceptance flag is the filter's verdict on its node. |
| `TextMapping.AcceptNode` | src/lib/replaceTextSegments.ts:71-96 | `acceptNode` gives the filter's verdict on node `k`. |
| `TextMapping.NormalizeNode` | src/lib/replaceTextSegments.ts:106 | Gives the normalised text of node `k`. |
| `TextMapping.LayoutAppend` | src/lib/replaceTextSegments.ts:108-117 | Pushing an entry that starts at `fullText.length` and growing both buffers keeps the offsets consistent and the buffers the concatenations. |
| `TextMapping.TextMapPrefixShape` | src/lib/replaceTextSegments.ts:104-118 | After any number of walker steps, the partial map is laid out end to end and describes the accepted nodes seen so far. |
| `TextMapping.TextMapOf` | src/lib/replaceTextSegments.ts:69-121 | The built map is well formed and holds exactly the accepted nodes in document order, each with its own text. Well formed means: the first entry starts at 0, each entry spans its normalised text, consecutive entries are contiguous, `fullText` and `originalFullText` are the concatenations, and `\|fullText\|` is the last `endOffset`. |
| `TextMapping.TextMapUnique` | src/lib/replaceTextSegments.ts:69-121 | A well-formed map holding exactly the accepted nodes is the built map. |
| `TextMapping.LayoutUnique` | src/lib/replaceTextSegments.ts:104-118 | The layout and the described positions determine a map completely. |
| `TextMapping.BuildTextMap` | src/lib/replaceTextSegments.ts:69-121 | The walker loop builds `TextMapOf(doc)`. |
| `TextMapping.AcceptedNodesNonEmpty` | src/lib/replaceTextSegments.ts:71-96 | Every entry's node passes the filter, and its normalised text is non-empty. Passing the filter means: a parent element whose lower-cased tag is not script, style, textarea or noscript, no ancestor with class `lexa-root-node`, and non-blank text. |
| `TextMapping.MapHoldsAcceptedNodes` | src/lib/replaceTextSegments.ts:70-118 | A node is in the map exactly when the filter accepts it, and the entries keep document order. |
| `TextMapping.NodeTextAtOffsets` | src/lib/replaceTextSegments.ts:108-116 | In a well-formed map, `fullText[startOffset..endOffset]` is the entry's normalised text. |
| `TextMapping.WellFormedContiguous` | src/lib/replaceTextSegments.ts:112-113 | A well-formed map's entries are laid out contiguously from offset 0. |
| `TextMapping.ConcatFrontBack` | src/lib/replaceTextSegments.ts:116 | The buffer grown by appending equals the concatenation taken from the front. |
| `WordBoundary.SameUpToCaseIff` | src/lib/replaceTextSegments.ts:211 | The `i` flag's comparison is equality of the lower-cased forms. |
| `WordBoundary.Advance` | src/lib/replaceTextSegments.ts:216-219 | After a match, `lastIndex` moves past it, or one position further for an empty match. |
| `WordBoundary.Exec` | src/lib/replaceTextSegments.ts:214 | An `exec` result lies at or after `lastIndex` and inside the text. |
| `WordBoundary.ExecSpec` | src/lib/replaceTextSegments.ts:211-214 | `exec` returns the leftmost `\b<target>\b` occurrence at or after `lastIndex`, and fails only when there is none. |
| `WordBoundary.MatchesFromSound` | src/lib/replaceTextSegments.ts:214-220 | Every collected index is a case-insensitive occurrence inside the text, with a word boundary before and after it. The indices increase, each at least one target length after the previous. |
| `WordBoundary.MatchesFromComplete` | src/lib/replaceTextSegments.ts:214-220 | A boundary occurrence is collected exactly when no earlier collected occurrence overlaps it: the leftmost greedy non-overlapping set. |
| `WordBoundary.WordBoundaryMatchesSpec` | src/lib/replaceTextSegments.ts:200-223 | The returned offsets are sound, spaced, and exactly the boundary occurrences not overlapped by an earlier returned one. |
| `WordBoundary.FindWordBoundaryMatches` | src/lib/replaceTextSegments.ts:200-223 | The `exec` loop returns `WordBoundaryMatches(text, target)`. |
| `Spanning.Clip` | src/lib/replaceTextSegments.ts:250-254 | For an overlapping entry, the local range lies inside its normalised text. Shifted back by the entry's start, it is exactly the intersection of the two global ranges. |
| `Spanning.GetSpanningNodes` | src/lib/replaceTextSegments.ts:228-264 | The loop returns the clipped ranges of the overlapping entries, in entry order. |
| `Spanning.OverlappingEntries` | src/lib/replaceTextSegments.ts:241-247 | Lists the entries the loop does not skip: increasing, each one overlapping, and every overlapping entry included. |
| `Spanning.SpansAreClips` | src/lib/replaceTextSegments.ts:240-261 | The k-th result is the clip of the k-th overlapping entry. |
| `Spanning.SpansWithinNodes` | src/lib/replaceTextSegments.ts:250-261 | In a well-formed map every result is a non-inverted range inside its node's normalised text. |
| `Spanning.SpansStrict` | src/lib/replaceTextSegments.ts:250-261 | With no empty entry, a non-empty range gives results with `0 <= startOffset < endOffset <= \|normalizedText\|`. |
| `Spanning.BuiltMapSpans` | src/lib/replaceTextSegments.ts:228-264 | Over a built map and a non-empty range, each result is a non-empty range inside its node's normalised text, and results follow document order. |
| `Spanning.SpansInDocumentOrder` | src/lib/replaceTextSegments.ts:240-261 | Over a built map, results follow document order. |
| `Spanning.SpanLengthsSum` | src/lib/replaceTextSegments.ts:228-264 | For a range inside the full text, the local lengths add up to the range's length. |
| `Spanning.SpansNonEmpty` | src/lib/replaceTextSegments.ts:228-264 | A non-empty range inside the full text meets at least one node. |
| `Spanning.SingleNodeRange` | src/lib/replaceTextSegments.ts:228-264 | A non-empty range inside one entry gives exactly one result: that entry, with the range made local. |
| `Spanning.OffsetsOrdered` | src/lib/replaceTextSegments.ts:112-113 | The entries of a consistent layout come one after another. |
| `PositionMapping.WalkFrom` | src/lib/replaceTextSegments.ts:351-362 | The walk stops inside the text, never before where it started. |
| `PositionMapping.WalkCharacterised` | src/lib/replaceTextSegments.ts:351-362 | The walk stops at the shortest prefix holding `normalizedIndex` non-whitespace characters, right after one of them. With fewer such characters it runs to the end of the text. Whitespace is never counted. |
| `PositionMapping.WalkToIndex` | src/lib/replaceTextSegments.ts:347-364 | The two-counter loop returns the walk's position. |
| `PositionMapping.Remap` | src/lib/replaceTextSegments.ts:325-383 | Any non-null result satisfies `0 <= start <= end <= \|originalText\|`. |
| `PositionMapping.MapNormalizedToOriginalPosition` | src/lib/replaceTextSegments.ts:325-383 | The method computes `Remap`: the normalised search, the walk, the direct search and the fallback. |
| `PositionMapping.RemapResult` | src/lib/replaceTextSegments.ts:333-343 | The result is null exactly when the normalised target does not occur in the normalised text at or after the clamped hint. |
| `PositionMapping.RemapDirect` | src/lib/replaceTextSegments.ts:366-376 | Suppose the target occurs case-insensitively within ten characters of the walk's position. Then the result is the first occurrence from the window's start, it has the target's length, and its slice equals the target up to case. |
| `PositionMapping.RemapFallback` | src/lib/replaceTextSegments.ts:378-382 | With no such occurrence, the result starts at the walk's position and is clipped to the text. |
| `ReplaceSegments.FirstTrue` | src/lib/replaceTextSegments.ts:157-183 | Finds the first accepted candidate: none before it is accepted. |
| `ReplaceSegments.FitFlags` | src/lib/replaceTextSegments.ts:157-176 | A candidate is accepted when its ±100-character window contains the context and it spans some node. |
| `ReplaceSegments.FirstAccepted` | src/lib/replaceTextSegments.ts:156-183 | The candidate loop with early return gives the match for the first accepted candidate, or nothing. |
| `ReplaceSegments.FindMatch` | src/lib/replaceTextSegments.ts:137-194 | `findMatch` computes `FindMatchSpec`. |
| `ReplaceSegments.FitsByContext` | src/lib/replaceTextSegments.ts:166-175 | In a well-formed map a candidate of a non-empty target always spans a node, so only the context decides. |
| `ReplaceSegments.FindMatchByContext` | src/lib/replaceTextSegments.ts:137-194 | For a non-blank original, `findMatch` is null exactly when no word-boundary candidate has the context in its window. Otherwise it is one of the candidates, the first with the context in its window, with length `\|normalizeText(original)\|` and its spanning nodes. |
| `ReplaceSegments.CandidatesNone` | src/lib/replaceTextSegments.ts:142-193 | There is no match exactly when no candidate is accepted. |
| `ReplaceSegments.CandidatesFirst` | src/lib/replaceTextSegments.ts:157-183 | A match is an accepted candidate, and every candidate with a smaller offset is rejected. |
| `ReplaceSegments.Found` | src/lib/replaceTextSegments.ts:47 | Entry `i` is `findMatch` of translation `i`. |
| `ReplaceSegments.PresentSpec` | src/lib/replaceTextSegments.ts:48 | The null filter keeps at most one value per entry, and exactly the present ones. |
| `ReplaceSegments.MatchesOfTranslations` | src/lib/replaceTextSegments.ts:46-48 | Each translation contributes at most one match, and every match is some translation's `findMatch` result. |
| `ReplaceSegments.CollectMatches` | src/lib/replaceTextSegments.ts:46-48 | The `map`/`filter` gives `MatchesOf`. |
| `ReplaceSegments.InsertMultiset` | src/lib/replaceTextSegments.ts:57 | Insertion adds the element and keeps every other. |
| `ReplaceSegments.InsertDescending` | src/lib/replaceTextSegments.ts:57 | Insertion keeps the order descending. |
| `ReplaceSegments.SortDescending` | src/lib/replaceTextSegments.ts:57 | The sort gives non-increasing `globalOffset` and is a permutation of the matches. |
| `ReplaceSegments.InitialTexts` | src/lib/replaceTextSegments.ts:289 | Before any replacement each node holds its own text. |
| `ReplaceSegments.ReplaceAtPosition` | src/lib/replaceTextSegments.ts:269-319 | `replaceAtPosition` computes `ReplaceSpec`. |
| `ReplaceSegments.ReplaceOutcome` | src/lib/replaceTextSegments.ts:269-319 | A match over other than one node is skipped. A null remap is skipped. Otherwise the mount's range lies inside the node's current text, and only that node changes. |
| `ReplaceSegments.ReplaceKind` | src/lib/replaceTextSegments.ts:273-309 | Each action carries its match's offset, is a multi-node skip exactly for a match over other than one node, and mounts only on the match's node. |
| `ReplaceSegments.ApplyFromSpec` | src/lib/replaceTextSegments.ts:60-62 | The loop emits one action per match, in order, each answering to its match. |
| `ReplaceSegments.ReplaceAll` | src/lib/replaceTextSegments.ts:60-62 | The `for` loop threads the node texts through `replaceAtPosition` and gives `ApplyFrom`. |
| `ReplaceSegments.ReplaceTextSegments` | src/lib/replaceTextSegments.ts:33-63 | `replaceTextSegments` computes `ReplaceTextSegmentsSpec`. |
| `ReplaceSegments.ReplaceEmptyMap` | src/lib/replaceTextSegments.ts:40-43 | With no acceptable text node there are no actions, and every node keeps its text. |
| `ReplaceSegments.ReplaceAllOrder` | src/lib/replaceTextSegments.ts:57-62 | For any list of matches, the actions after sorting come one per match in non-increasing offset, each answering to its sorted match. |
| `ReplaceSegments.ReplaceTextSegmentsOrder` | src/lib/replaceTextSegments.ts:33-63 | There are at most as many actions as translations. They come in non-increasing offset, and the j-th answers to the j-th sorted match, which is a permutation of the matches. |
| `UserPhrases.MasteryLevelForTimesCorrect` | src/queries/user-phrase.ts:184-191 | 2 or fewer correct answers gives New, 3 to 7 Familiar, 8 to 14 Confident, and 15 or more Mastered, each an if-and-only-if. |
| `UserPhrases.MasteryMonotone` | src/queries/user-phrase.ts:184-191 | More correct answers never give a lower level. |
| `UserPhrases.MasteryWithinBreakpoints` | src/queries/user-phrase.ts:30-35 | Each level's count lies between the previous breakpoint (exclusive) and its own. Mastered is 15 or more. |
| `UserPhrases.Find` | src/queries/user-phrase.ts:65 | `find` returns a row of the list that has the key, and nothing exactly when no row has it. |
| `UserPhrases.FindFirst` | src/queries/user-phrase.ts:65 | `find` returns the first row with the key. |
| `UserPhrases.UseUserPhrase` | src/queries/user-phrase.ts:63-66 | Gives nothing with no cached list; otherwise the first cached row with the text. |
| `UserPhrases.OptimisticFields` | src/queries/user-phrase.ts:108-122 | Field by field, the optimistic row holds the update's value where it names one, and otherwise the cached row's value. For an uncached phrase the defaults are: unstarred, seen once, no correct or incorrect answers, no last-seen time, `New`, the current user and time. |
| `UserPhrases.Without` | src/queries/user-phrase.ts:128-130 | The filter never lengthens the list. |
| `UserPhrases.WithoutSpec` | src/queries/user-phrase.ts:128-130 | The filter keeps exactly the rows with another text. |
| `UserPhrases.WithoutAbsent` | src/queries/user-phrase.ts:128-130 | Filtering a list without the text changes nothing. |
| `UserPhrases.WithoutConcat` | src/queries/user-phrase.ts:128-130 | Filtering distributes over concatenation, so kept rows keep their order. |
| `UserPhrases.OnMutate` | src/queries/user-phrase.ts:97-137 | The snapshot is the cached list, or `[]`. The new list is the filtered snapshot followed by the optimistic row. |
| `UserPhrases.OptimisticUpsert` | src/queries/user-phrase.ts:108-133 | Exactly one row has the text, and it is last. Every other cached row is kept. That row is the cached row, or the defaults, overridden by the update. |
| `UserPhrases.OnError` | src/queries/user-phrase.ts:138-146 | The rollback always writes, because the snapshot is an array, which is truthy even when empty. |
| `UserPhrases.RollbackRestores` | src/queries/user-phrase.ts:138-146 | A failed mutation writes back the list cached before it. |
| `UserPhrases.ReplaceMatching` | src/queries/user-phrase.ts:209-211 | The `map` keeps the length, puts `newData` at every row with its text, and leaves the others. |
| `UserPhrases.UpdateCachedUserPhrase` | src/queries/user-phrase.ts:194-220 | With no server row the cache is left as it is. Otherwise a list is written. |
| `UserPhrases.UpdateExisting` | src/queries/user-phrase.ts:203-213 | When the text is cached, the length is kept, every row with the text becomes the server's row, and the others stay in place. |
| `UserPhrases.UpdateAbsent` | src/queries/user-phrase.ts:216-219 | When the text is not cached, the server's row is appended after the unchanged list. |
| `UserPhrases.MutateThenSucceed` | src/queries/user-phrase.ts:97-149 | The optimistic write followed by the server's row for the same text gives the other rows in order, then the server's row. |
| `TimeFormat.DigitChar` | src/components/OtpInput.tsx:66 | A digit value below 10 becomes a decimal digit character. |
| `TimeFormat.Decimal` | src/components/OtpInput.tsx:66 | `toString` of a non-negative integer is non-empty decimal digits: one digit below 10, two from 10 to 99. |
| `TimeFormat.DecimalRoundTrip` | src/components/OtpInput.tsx:66 | Reading the digits back gives the number. |
| `TimeFormat.JsRemainder` | src/components/OtpInput.tsx:65 | JavaScript's `%` agrees with the Euclidean remainder for a non-negative dividend. |
| `TimeFormat.TwoDigits` | src/components/OtpInput.tsx:66 | `padStart(2, '0')` of the seconds gives two digits denoting them. |
| `TimeFormat.MinSecShape` | src/components/OtpInput.tsx:63-67 | For a count `s >= 0`, `formatTime` gives decimal minutes, a colon and two digits below 60, with minutes times 60 plus seconds equal to `s`. |
| `TimeFormat.MinSec` | src/components/OtpInput.tsx:63-67 | Every `s >= 0` is read back from its `m:ss` string. |
| `TimeFormat.ParseJoined` | src/components/OtpInput.tsx:66 | Minutes and a two-digit seconds field joined by a colon are read back as the two parts. |
| `TimeFormat.MatchOneChar` | src/components/OtpInput.tsx:66 | The one-character string matches at `j` exactly when the character there is that character. |
| `OtpStorage.IsExpired` | src/lib/otpStorage.ts:37-42 | Expired exactly when the whole seconds elapsed reach the lifetime in seconds, the unit the countdown uses. |
| `OtpStorage.RemainingTime` | src/lib/otpStorage.ts:44-49 | The remaining time is never negative. When positive, it is the lifetime in seconds minus the whole seconds elapsed. |
| `OtpStorage.RemainingAtStart` | src/lib/otpStorage.ts:44-49 | With `expiryMinutes >= 0` and `now == timestamp`, the remaining time is `expiryMinutes*60`. |
| `OtpStorage.RemainingNonIncreasing` | src/lib/otpStorage.ts:46-48 | The remaining time never grows as `now` grows. |
| `OtpStorage.MonotoneDivision` | src/lib/otpStorage.ts:46 | `Math.floor(d / 1000)` is monotone. |
| `OtpStorage.FloorDivBound` | src/lib/otpStorage.ts:46 | `floor(d / 1000) >= n` exactly when `d >= 1000n`. |
| `OtpStorage.RemainingZeroIffExpired` | src/lib/otpStorage.ts:37-49 | For integer milliseconds, `getRemainingTime == 0` exactly when `isExpired`, that is when `now - timestamp >= expiryMinutes*60*1000`. |
| `OtpStorage.RemainingAfter` | src/lib/otpStorage.ts:44-49 | `n` more seconds take `n` off the remaining time, down to 0. |
| `OtpStorage.DivShift` | src/lib/otpStorage.ts:46 | Adding `1000n` milliseconds adds `n` whole seconds. |
| `OtpStorage.Max0` | src/lib/otpStorage.ts:48 | `Math.max(0, x)` is `x` or 0, whichever is larger. |
| `OtpStorage.DebugRemainingTime` | src/lib/otpStorage.ts:60 | The debug string reads back as the remaining time (it is `m:ss`, with `m*60 + ss` the remaining time and `ss` two digits below 60). |
| `OtpInputs.Split` | src/components/OtpInput.tsx:126 | `split('')` gives one slot per character. |
| `OtpInputs.Blank` | src/components/OtpInput.tsx:138 | `new Array(n).fill('')` gives `n` empty slots. |
| `OtpInputs.DigitsOnly` | src/components/OtpInput.tsx:121-123 | `replace(/\D/g, '')` keeps only digits and never lengthens the text. |
| `OtpInputs.DigitsOnlyOfDigits` | src/components/OtpInput.tsx:121-123 | Stripping non-digits from digits changes nothing. |
| `OtpInputs.DigitsOnlyConcat` | src/components/OtpInput.tsx:121-123 | Stripping distributes over concatenation. |
| `OtpInputs.JoinSplit` | src/components/OtpInput.tsx:126-128 | Joining the slots of a split string gives it back. |
| `OtpInputs.JoinLength` | src/components/OtpInput.tsx:86-89 | With every slot `''` or one digit, the joined code is all digits and has `otpLength` characters exactly when every slot is filled. |
| `OtpInputs.PasteRoundTrip` | src/components/OtpInput.tsx:121-128 | The pasted digits fill valid slots whose join is the code handed to `onComplete`. |
| `OtpInputs.InitialTimeLeft` | src/components/OtpInput.tsx:31-38 | With a truthy `startTime` the value is clamped at 0. A missing or zero `startTime` gives `expiryMinutes*60`. |
| `OtpInputs.InitialIsRemaining` | src/components/OtpInput.tsx:31-38 | For a restored start time, the initial countdown is the stored flow's `getRemainingTime`. |
| `OtpInputs.Ticked` | src/components/OtpInput.tsx:50-56 | A value up to 1 goes to 0. Otherwise it drops by 1. It is never negative. |
| `OtpInputs.TickedTimesValue` | src/components/OtpInput.tsx:49-57 | `n` ticks from `t >= 0` give `max(0, t - n)`. |
| `OtpInputs.CountdownMatchesStorage` | src/components/OtpInput.tsx:31-57 | `n` ticks after a restored start, `timeLeft` is the stored flow's remaining time `n` seconds later. |
| `OtpInputs.OtpInput.constructor` | src/components/OtpInput.tsx:26-47 | The mounted widget starts with `otpLength` blank slots and the initial countdown. Once the countdown effect has run for the first time, resend is offered exactly when no time is left. |
| `OtpInputs.OtpInput.Reset` | src/components/OtpInput.tsx:146-151 | The e-mail effect blanks the slots and restarts the countdown. It sets `canResend` exactly when no time is left. |
| `OtpInputs.OtpInput.HandleChange` | src/components/OtpInput.tsx:70-94 | A non-empty value that is not one digit leaves the state unchanged. Otherwise only slot `index` changes, to the value. Slots stay `otpLength` in number, each `''` or one digit. The code completes, with the joined digits, exactly when every slot is filled and the join is `otpLength` long. |
| `OtpInputs.OtpInput.HandleKeyDown` | src/components/OtpInput.tsx:97-115 | Backspace on a filled slot clears it. On an empty slot after the first, it clears the previous one. Otherwise nothing changes. |
| `OtpInputs.OtpInput.HandlePaste` | src/components/OtpInput.tsx:118-134 | With exactly `otpLength` digits after stripping, the slots become those digits and the code completes with them. Otherwise nothing changes. |
| `OtpInputs.OtpInput.HandleResend` | src/components/OtpInput.tsx:137-144 | Every slot becomes `''`, `timeLeft` becomes `expiryMinutes*60` and `canResend` becomes false. |
| `OtpInputs.OtpInput.Tick` | src/components/OtpInput.tsx:49-57 | One second of the countdown: `timeLeft` becomes `Ticked(timeLeft)`, never negative. `canResend` is set when it was 1 or less. The slots are untouched. |
| `OtpInputs.OtpInput.CountdownExpired` | src/components/OtpInput.tsx:43-47 | With no time left the effect offers a resend. Otherwise nothing changes. |

## Where the code and its tests disagree

The model follows the code in each of the following cases.

- **Empty target.** `findWordBoundaryMatches(text, '')` builds `/\b\b/gi`, which matches at every word boundary. `src/lib/__tests__/textMatching.test.ts:92-98` expects no match. The model keeps the real behaviour: `Advance` moves one position past an empty match, as `lastIndex++` does. The empty case is reachable only for a translation whose original is blank once normalised. `FindMatchByContext` is stated for a non-blank original.
- **The walk ignores whitespace.** The comment at `src/lib/replaceTextSegments.ts:345-346` describes walking both strings character by character, with `normalizedIndex2` tracking the normalised position. But `normalizeText` of a single whitespace character is `''`, so whitespace is never counted, while every collapsed run contributes one space to the normalised index. `WalkCharacterised` states what the code does: the walk stops after `normalizedIndex` non-whitespace characters. So the walk stops to the right of the target by the number of whitespace runs before it. The direct search within ±10 characters repairs this when the target occurs literally nearby. Otherwise `RemapFallback` shows the position used as it is.
- **Position hint.** `src/lib/__tests__/positionMapping.test.ts:57` passes hint 35 for a target at normalised index 30. By `RemapResult` the code answers `null` whenever the target does not occur at or after the hint.
- **Replacement count.** `src/lib/__tests__/replaceTextSegments.test.ts:153-175` expects three replacements from one translation. By `MatchesOfTranslations` and `ReplaceTextSegmentsOrder` each translation gives at most one match, hence at most one action.
- **Repeated runs.** `Accepts` rejects every text node with a `lexa-root-node` ancestor, so the text inside a mounted element is never searched again. On its own this does not rule out a second mount. A later run can still find another occurrence of the same phrase whose ±100-character window holds the context. No property about a second run is modelled.
- **The catch.** In the ASCII model, `ReplaceOutcome` shows that every mounted range lies inside the node's current text, so the range calls at `src/lib/replaceTextSegments.ts:303-305` would not throw. With full Unicode case folding they can: `'İ'.toLowerCase()` is two code units long. For a node `"İ work"` and the original `"work"`, that length shifts the walk, and the direct search gives `[3, 7)` in a 6-unit node. `setEnd` then throws, and the `catch` at `src/lib/replaceTextSegments.ts:314-318` swallows the error.

## Left out

- DOM machinery is not modelled: TreeWalker, `parentElement` and `closest`, `Range`, and the shadow-DOM and React rendering of `mountLexaRoot`. A text node is a record in document order, and a mount is an emitted action plus the truncation of the node's text.
- Logging and `__DEBUG__` branches have no effect on results and are left out.
- The swallowed error of `replaceAtPosition` is not modelled. The `try`/`catch` at `src/lib/replaceTextSegments.ts:270-318` drops errors from `Range` and from `mountLexaRoot`, leaving the node as it was. The model has no error outcome, because under its ASCII case folding no range error arises, and the mount itself is an emitted action.
- Unicode is modelled only in part:
  - case folding is ASCII only, because Unicode `toLowerCase` can change a string's length, which the offset lemmas rely on; the `\s` and `trim` class is the full ECMAScript whitespace set;
  - strings are sequences of Unicode scalar values rather than UTF-16 code units;
  - the `i` flag's Unicode case folding is ASCII as well.
- The regex engine is not modelled. `\b<escaped target>\b` with flags `gi` is modelled directly as literal, case-insensitive matching between ASCII word boundaries. The escape at `src/lib/replaceTextSegments.ts:208` only makes the target literal.
- `ReplaceSegments.SortDescending` is modelled as a stable insertion sort, standing in for the engine's `Array.prototype.sort`. Its permutation and order are proved; its stability is not proved.
- The `chrome.storage` get, set and clear of `src/lib/otpStorage.ts:11-35` are storage I/O. `Date.now()` is the parameter `now`.
- Supabase and the network are left out: the `mutationFn` queries, `useRecordPhraseSeen`'s RPC, `cancelQueries`, and the query keys. The query cache entry is an `Option<seq<UserPhrase>>`. `user!.id` and `new Date().toISOString()` are parameters.
- React scheduling is not modelled. `setInterval`, the effects' dependency lists, focus handling and rendering are left out. One interval callback is `Tick`, and the two effects are `Reset` and `CountdownExpired`. `onComplete` is the `Some(code)` a handler returns, and `onResend` is not modelled.
- JavaScript numbers are modelled as mathematical integers. `NaN`, fractional values and 53-bit limits are left out. For example, a `NaN` times-correct would classify as `Mastered`, and a fractional `expiryMinutes` would give fractional seconds.
- A spread of an update with a field explicitly set to `undefined` is not modelled. Each update field is either named, with a value, or absent.
- `OtpInputs.OtpInput.HandleChange` and `OtpInputs.OtpInput.HandleKeyDown` take an index below `otpLength`, as the rendered inputs supply.
