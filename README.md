# angular-mentions: a verified model of `MentionDirective`

This project models the core of the `mention` attribute directive of angular-mentions
(`src/mention/mention.directive.ts`). The directive watches keystrokes in a text box or
contenteditable element. When the trigger character (by default `@`) is typed, it
opens a suggestion list, filters the candidate items by what follows the trigger, and
replaces the typed text with the chosen item on Tab or Enter.

The model has seven modules:

- `JsText` holds the JavaScript built-ins the directive relies on: truthiness,
  `String(v)`, `substring`, `charAt`, `startsWith`, `includes`, `trim`, `toLowerCase`
  and `String.fromCharCode`.
- `Candidates` covers the candidate items. It models the normalisation done by
  `ngOnInit` (strings promoted to records, label-less items dropped, a stable sort by
  label). It also models the filter and the `maxItems` cap of `updateSearchList`. The
  filter loop over the keys and the filter over the items are methods, proved against
  their specification functions.
- `Platform` is `getPlatform()`, with `navigator.userAgent` and `navigator.platform`
  passed in as parameters.
- `Keys` holds the key codes, the keydown event fields the directive reads,
  `keyCodeSpecified`, and the resolution of the pressed character.
- `Mention` is the specification of the handlers, as pure functions over the
  configuration, the items and the session fields (`startPos`, `stopSearch`,
  `searchString` and the list component's `items`/`hidden`/`searchString`).
  - `Step` is `keyHandler`; `Blur` is `blurHandler`; `Refresh` is the end of `ngOnInit`.
  - A step also returns the page effects it requests, in order: cancel the event, show
    the list, emit a search term, insert a value, dispatch an input event, move the
    active item, restore the caret.
  - A step ends in one of three outcomes: it completes, it returns `false`, or it throws
    a TypeError.
- `MentionLaws` holds the properties of those functions, stated for all inputs. Among
  them:
  - what each key does while a trigger is tracked, and on the word path;
  - text is inserted only by a commit;
  - when a step throws: only on a missing list on the word path, or with the filter's
    error; and a step in either situation does throw;
  - no step starts tracking without a list.
- `Directive` is the directive as a class whose fields the inputs, `ngOnInit`,
  `updateSearchList`, `keyHandler` and `blurHandler` update in place. Each method is
  proved to leave its fields and return its effects as the matching `Mention` function
  says. The methods also preserve `Valid()`:
  - the trigger is truthy;
  - `keyCodeSpecified` agrees with the trigger;
  - a trigger is never tracked without a list.

The page is not modelled. The helper functions of `mention-utils` appear only as
inputs of a keystroke (`Env`: the value, the caret offset, the word at the caret and
its caret, the length of the trigger's node, the active item, the platform strings).
Their outputs appear as `Effect` values.

Where the handler's text and a plain reading of its comments differ, the model follows
the code:

- On the tracked path, Space ends the tracking. The same keystroke still searches for
  the whole text before the caret followed by the space character (`SpaceEndsTracking`).
- On the tracked path, the hidden flag that Backspace sets is overwritten by the
  following `updateSearchList`. So Backspace at offset 1 stops the search, but the list
  is shown again whenever the candidates match (`BackspaceAtStartStops`).
- Escape, Up, Down, Tab and Enter on a hidden list are ordinary text. They are appended
  to the search string by their key name (`HiddenListKeysAreText`).
- On Android the tracked span starts at the trigger offset itself, not one after it. So
  there the search string includes the trigger character (`AndroidTypedTerm`).
- The Android early return looks for a literal `@`, whatever the configured trigger is
  (`AndroidHaltIsNoOp`).
- Each `mentionConfig` option is `config.x || this.x`. So a configuration can never
  switch `disableSearch` or `insertHTML` back off, and `maxItems: 0` keeps the previous
  value (`Directive.ApplyConfig`).
- Before any trigger has been typed, every unmodified keystroke other than Space on a
  word that starts with the trigger writes or reads `hidden` of a list that does not
  exist yet, and throws (`WordPathThrowsWithoutList`).
- The handler trims the value it reads but takes the caret offset from the untrimmed
  element, and `startPos` is such an offset too. Spans and the input method's
  `Unidentified` character are therefore read from the trimmed value at untrimmed
  offsets. When the page's value does not start with white space the two agree
  (`TermOfPageValue`); leading white space shifts them: in " @bo" with the caret after
  "b", typing "x" searches for "ox" (`LeadingSpaceShiftsTerm`). Every law about the
  search term below speaks of the trimmed value.

## Model

| member | source | states |
|---|---|---|
| JsText.DigitChar | src/mention/mention.directive.ts:315 | a digit is rendered as the decimal character of that value |
| JsText.NatToDecimal | src/mention/mention.directive.ts:315 | `String(n)` of a natural number is a non-empty string of decimal digits without a leading zero (except `"0"` itself) |
| JsText.DecimalRoundTrip | src/mention/mention.directive.ts:315 | reading the decimal rendering of `n` back gives `n`, so rendering loses nothing |
| JsText.TruthyRendersNonEmpty | src/mention/mention.directive.ts:324 | a truthy trigger renders as a non-empty string, so `startsWith(String(trigger))` needs at least one character |
| JsText.Clamp | src/mention/mention.directive.ts:310-312 | a `substring` index is clamped into `[0, length]` and an in-range index is kept |
| JsText.Substring | src/mention/mention.directive.ts:310-312 | `substring` never grows the string and is the plain slice for in-range ordered indices |
| JsText.SubstringSymmetric | src/mention/mention.directive.ts:310-312 | swapping the two `substring` arguments gives the same result, so a caret before the trigger still yields a span |
| JsText.CharAt | src/mention/mention.directive.ts:225 | `charAt(i)` is the one character at offset `i` when `i` is in range and the empty string otherwise |
| JsText.IncludesIffOccurs | src/mention/mention.directive.ts:442 | `includes` holds exactly when the needle occurs at some offset |
| JsText.Includes | src/mention/mention.directive.ts:442 | `includes`; specified by `IncludesIffOccurs` and `IncludesEmpty` |
| JsText.IncludesEmpty | src/mention/mention.directive.ts:436-442 | every string includes the empty needle |
| JsText.IndexOf | src/mention/mention.directive.ts:206 | `indexOf` gives -1 or an offset in range that holds the sought character |
| JsText.IndexOfFirst | src/mention/mention.directive.ts:206 | `indexOf` is -1 exactly when the character does not occur, and otherwise no earlier offset holds it |
| JsText.TrimStart | src/mention/mention.directive.ts:204 | the result is a suffix of the input that is empty or starts with a non-space |
| JsText.TrimEnd | src/mention/mention.directive.ts:204 | the result is a prefix of the input that is empty or ends with a non-space |
| JsText.TrimStartDropsSpace | src/mention/mention.directive.ts:204 | every character that the leading trim removes is white space |
| JsText.TrimEndDropsSpace | src/mention/mention.directive.ts:204 | every character that the trailing trim removes is white space |
| JsText.TrimEndDropsSpaceOf | src/mention/mention.directive.ts:204 | the trailing trim of a suffix removes only white space, counted in offsets of the whole string |
| JsText.TrimShape | src/mention/mention.directive.ts:204 | `trim` yields the contiguous piece of the value between offsets `i <= j`, where `i` is the length of the leading white space and everything before `i` and from `j` on is white space |
| JsText.TrimEnds | src/mention/mention.directive.ts:204 | the trimmed value is empty or starts and ends with a non-space |
| JsText.Trim | src/mention/mention.directive.ts:204 | `trim`; specified by `TrimShape`, `TrimEnds` and `TrimIdentity` |
| JsText.TrimIdentity | src/mention/mention.directive.ts:204 | a value without white space at either end is its own trim |
| JsText.TrimKeepsOffsets | src/mention/mention.directive.ts:204 | a value that does not start with white space keeps its offsets under `trim`: the trimmed value is a prefix of it |
| JsText.ToLower | src/mention/mention.directive.ts:437 | lower-casing keeps the length and maps each character on its own |
| JsText.ToLowerIdempotent | src/mention/mention.directive.ts:437-458 | lower-casing twice is lower-casing once |
| JsText.FromCharCode | src/mention/mention.directive.ts:214 | `fromCharCode` gives one code unit, the code reduced modulo 2^16 |
| Candidates.SelectMembers | src/mention/mention.directive.ts:164 | `filter` keeps exactly the elements that satisfy the callback |
| Candidates.SelectIsSubsequence | src/mention/mention.directive.ts:164 | `filter` only deletes elements and keeps the others in order |
| Candidates.SelectAppend | src/mention/mention.directive.ts:438-446 | filtering one more element appends it exactly when it satisfies the callback |
| Candidates.SelectIdempotent | src/mention/mention.directive.ts:164 | filtering an already filtered sequence changes nothing |
| Candidates.SelectAll | src/mention/mention.directive.ts:164 | when every element has a label the label filter keeps the sequence as it is |
| Candidates.LexLeTotal | src/mention/mention.directive.ts:165 | any two labels are comparable under `localeCompare` order |
| Candidates.LexLeTransitive | src/mention/mention.directive.ts:165 | the label order is transitive |
| Candidates.LexLeAntisymmetric | src/mention/mention.directive.ts:165 | labels that compare both ways are equal |
| Candidates.InsertByLabelPermutes | src/mention/mention.directive.ts:165 | inserting into the sorted prefix adds exactly the inserted candidate |
| Candidates.InsertByLabelMembers | src/mention/mention.directive.ts:165 | an insertion contains the inserted candidate and the old ones and nothing else |
| Candidates.SortedCons | src/mention/mention.directive.ts:165 | a candidate no greater than a sorted tail extends it to a sorted sequence |
| Candidates.SortedTail | src/mention/mention.directive.ts:165 | the tail of a sorted sequence is sorted and no smaller than its head |
| Candidates.InsertByLabelSorted | src/mention/mention.directive.ts:165 | inserting into a sorted sequence keeps it sorted |
| Candidates.SortByLabelCorrect | src/mention/mention.directive.ts:165 | the sort returns a label-sorted permutation of its input |
| Candidates.SortByLabelOfSorted | src/mention/mention.directive.ts:165 | sorting an already sorted sequence leaves it unchanged |
| Candidates.LexLeReflexive | src/mention/mention.directive.ts:165 | every label compares no greater than itself |
| Candidates.InsertByLabelSelect | src/mention/mention.directive.ts:165 | inserting a candidate and then keeping one label gives the kept candidates of the old sequence with the new one appended when it has that label |
| Candidates.SortByLabelStable | src/mention/mention.directive.ts:165 | the sort is stable: for each label, the candidates with that label keep their input order |
| Candidates.SortByLabel | src/mention/mention.directive.ts:165 | the `sort` by `localeCompare` of the labels; specified by `SortByLabelCorrect`, `SortByLabelStable` and `SortByLabelOfSorted` |
| Candidates.Promoted | src/mention/mention.directive.ts:154-162 | when the first candidate is a string, candidate `i` becomes `{[labelKey]: s}` if it is the string `s` and is kept otherwise; when it is not, the items are kept as they are |
| Candidates.NormalizeCorrect | src/mention/mention.directive.ts:152-165 | after `ngOnInit` every candidate has a truthy label, the candidates are sorted by label, and they are exactly the (promoted) candidates that had one, with their multiplicities |
| Candidates.NormalizePromotesStrings | src/mention/mention.directive.ts:154-164 | when the first candidate is a string, each non-empty string candidate ends up as the record `{[labelKey]: s}`, and every remaining candidate is the promotion of an original one |
| Candidates.NormalizeIdempotent | src/mention/mention.directive.ts:152-170 | running `ngOnInit` twice gives the same items as running it once |
| Candidates.Normalize | src/mention/mention.directive.ts:152-170 | `ngOnInit`'s normalisation; specified by `NormalizeCorrect`, `NormalizePromotesStrings` and `NormalizeIdempotent` |
| Candidates.ShiftPastMiss | src/mention/mention.directive.ts:440-444 | a present key that does not match passes the decision to the next key |
| Candidates.KeysMatchMeaning | src/mention/mention.directive.ts:439-445 | `hasValue` is true iff some filter key matches and every key before it is present on the candidate; the callback throws iff some key is missing and no key before it matched |
| Candidates.KeysMatch | src/mention/mention.directive.ts:439-445 | the `forEach` over the filter keys; specified by `KeysMatchMeaning` and `ShiftPastMiss` |
| Candidates.HasValue | src/mention/mention.directive.ts:439-445 | the `forEach` loop over the filter keys computes that meaning, stopping its reads at the first match |
| Candidates.FilterSpecFailPrefix | src/mention/mention.directive.ts:438-446 | an exception on a prefix of the candidates is the exception of the whole filter |
| Candidates.FilterItems | src/mention/mention.directive.ts:438-446 | the loop over the candidates keeps the matching ones in order, or stops with the first exception |
| Candidates.FilterSpecMeaning | src/mention/mention.directive.ts:436-447 | the filter succeeds iff no candidate's callback throws, and then keeps exactly the matching candidates in their order |
| Candidates.FilterSpec | src/mention/mention.directive.ts:438-446 | the `filter` over the candidates; specified by `FilterSpecMeaning`, `FilterSpecFailPrefix` and `FilterIdempotent` |
| Candidates.FilterIdempotent | src/mention/mention.directive.ts:436-447 | filtering the result again by the same search gives the same result |
| Candidates.VisibleCandidatesMeaning | src/mention/mention.directive.ts:431-452 | no items give no matches; without a search all items are shown; with a search the filtered ones are shown; the cap keeps a prefix of `maxItems` candidates when `maxItems` is positive and smaller than the count |
| Candidates.Cap | src/mention/mention.directive.ts:449-451 | the `maxItems` cap; specified by `VisibleCandidatesMeaning` |
| Candidates.VisibleCandidates | src/mention/mention.directive.ts:431-452 | the candidates `updateSearchList` shows; specified by `VisibleCandidatesMeaning` and `SelectKeepsOrder` |
| Candidates.SelectKeepsOrder | src/mention/mention.directive.ts:438-446 | filtering the sorted items keeps them sorted, so the search shows its matches in label order |
| Platform.GetPlatform | src/mention/mention.directive.ts:410-429 | each OS is reported exactly when its platform list contains the platform; Android exactly when the platform is in no list and the user agent contains "Android"; Linux when additionally the agent does not contain "Android" and the platform contains "Linux"; null otherwise |
| Keys.ResolveChar | src/mention/mention.directive.ts:209-226 | `charPressed` is the key code when the trigger is a number, otherwise `event.key`; without one, an unshifted letter code gives its lower-case letter, Shift+2 gives the trigger and any other code `String.fromCharCode` of the code; an input method's `Unidentified` key gives the character of the trimmed value at the offset before the caret |
| Mention.DefaultMentionSelect | src/mention/mention.directive.ts:135 | the default inserted text is the trigger followed by the item's label, so it starts with the trigger |
| Mention.Step | src/mention/mention.directive.ts:201-408 | `keyHandler`; specified by `ThrowsOnlyWhen`, `InsertOnlyOnCommit`, `StepKeepsConsistent`, `AndroidHaltIsNoOp` and the per-key laws of `MentionLaws` |
| Mention.TrackedSpan | src/mention/mention.directive.ts:312 | the text `substring` reads between the trigger and the caret; specified by `TypedTerm`, `BackspacedTerm`, `TextBeforeCaret` and `SpanAtStart` |
| Mention.TrackedStep | src/mention/mention.directive.ts:244-321 | the tracked branch; specified by `TrackedInsertsOnlyOnCommit`, `TrackedThrowsFromFilter`, `TrackedKeepsConsistent`, `CaretBeforeTriggerHides` and `ModifiedKeysIgnored` |
| Mention.TrackedEdit | src/mention/mention.directive.ts:255-320 | the unmodified tracked keys; specified by `EditTyped`, `EditBackspace`, `EditSpace`, `EditSwallowsArrows`, `EditNavigates`, `EditEscape` and `EditCommits` |
| Mention.Extend | src/mention/mention.directive.ts:303-320 | the end of a tracked key; specified by `ExtendNeverInserts`, `ExtendThrowsFromFilter` and `ExtendKeepsShape` |
| Mention.WordStep | src/mention/mention.directive.ts:322-407 | the word branch; specified by `WordKeysIgnored`, `WordBackspaceShrinksWord`, `WordCommits`, `WordEscapeStopsSearch`, `WordNavigationMovesActiveItem`, `WordTypedKeySearches`, `WordInsertsOnlyOnCommit` and `WordThrowsFromListOrFilter` |
| Mention.Blur | src/mention/mention.directive.ts:191-199 | `blurHandler`; specified by `BlurStopsSearch` |
| Mention.UpdateSearchList | src/mention/mention.directive.ts:431-459 | `updateSearchList`; specified by `SearchStoresTerm` and `VisibleCandidatesMeaning` |
| MentionLaws.SpanAfterInsert | src/mention/mention.directive.ts:312-315 | the span of a value read before the key, plus the key's character, is the span of that value once the character is inserted at the caret |
| MentionLaws.SpanAfterDelete | src/mention/mention.directive.ts:258-312 | after Backspace the span up to the new caret is unchanged by the deletion |
| MentionLaws.StepOnTrigger | src/mention/mention.directive.ts:233-243 | the trigger key takes the session-opening branch |
| MentionLaws.StepWhileTracking | src/mention/mention.directive.ts:244 | another key while a trigger is tracked takes the tracked branch |
| MentionLaws.StepOnWord | src/mention/mention.directive.ts:322 | another key while no trigger is tracked takes the word branch |
| MentionLaws.TriggerOpensSession | src/mention/mention.directive.ts:233-243 | the trigger starts tracking at the caret, clears the search, shows the list with every candidate up to `maxItems`, and never throws |
| MentionLaws.SearchStoresTerm | src/mention/mention.directive.ts:317-319 | a search stores and announces the term and keeps the trigger offset and stop flag; the list then shows the visible candidates for the term, hidden iff there are none, with the lower-cased term, or the step throws the filter's error and leaves the list as it was |
| MentionLaws.EditTyped | src/mention/mention.directive.ts:255-320 | a text key after the trigger reaches the span search |
| MentionLaws.EditBackspace | src/mention/mention.directive.ts:258-320 | Backspace searches the span ending one before the caret, and stops the search when the caret reaches offset 0 |
| MentionLaws.EditSpace | src/mention/mention.directive.ts:255-320 | Space ends the tracking and searches from the start of the value |
| MentionLaws.EditSwallowsArrows | src/mention/mention.directive.ts:303-306 | Left and Right cancel the event and return false |
| MentionLaws.EditNavigates | src/mention/mention.directive.ts:291-300 | Down and Up on a shown list move the active item |
| MentionLaws.EditEscape | src/mention/mention.directive.ts:285-290 | Escape on a shown list aborts the search |
| MentionLaws.EditCommits | src/mention/mention.directive.ts:266-284 | Tab and Enter on a shown list commit the span from the trigger to the caret |
| MentionLaws.TrackedTextReachesEdit | src/mention/mention.directive.ts:201-254 | an unmodified key after the trigger, on any platform once the Android early return is passed, reaches the tracked-key branches with the key read from the value and the caret as read |
| MentionLaws.TypedTerm | src/mention/mention.directive.ts:307-315 | the term after a typed character is the tracked span of the trimmed value followed by that character; off Android it is the span of the trimmed value between the trigger and the caret once the character is inserted |
| MentionLaws.TermOfPageValue | src/mention/mention.directive.ts:202-312 | when the page's value does not start with white space, the term read from the trimmed value is, off Android, the text between the trigger and the caret in the page's own value once the character is inserted |
| MentionLaws.LeadingSpaceShiftsTerm | src/mention/mention.directive.ts:202-312 | with the value " @bo", the trigger at 1 and the caret at 3, typing "x" searches for "ox" while the page shows "bx" after the trigger |
| MentionLaws.AndroidTypedTerm | src/mention/mention.directive.ts:307-315 | on Android, where the value is read with the typed character already inserted before the caret, the term is the text from the trigger itself up to the insertion point followed by the character, so the trigger is part of the search string |
| MentionLaws.BackspacedTerm | src/mention/mention.directive.ts:258-315 | the term after Backspace is the tracked span of the trimmed value ending one before the caret; off Android it is the span of the trimmed value with the character before the caret deleted |
| MentionLaws.TextBeforeCaret | src/mention/mention.directive.ts:255-315 | once Space ends the tracking, the span is the whole value up to the caret (one before it on Android) |
| MentionLaws.SpanAtStart | src/mention/mention.directive.ts:258-315 | a span from offset 0 to offset 0 is empty on Android and otherwise the first character of the value, because `substring(1, 0)` swaps its arguments |
| MentionLaws.TypedKeyExtendsSearch | src/mention/mention.directive.ts:307-320 | a character typed after the trigger makes the search string the tracked span of the trimmed value followed by the character (off Android: the text of the trimmed value between the trigger and the caret once it is inserted), announces it and refreshes the list, or throws the filter's error with the list unchanged |
| MentionLaws.BackspaceShrinksSearch | src/mention/mention.directive.ts:258-320 | Backspace after the trigger makes the search string the span of the trimmed value ending one before the caret (off Android: the text of the trimmed value between the trigger and the caret once the character is deleted) and does not stop the search; the list then shows the matches, hidden iff there are none, or the step throws the filter's error |
| MentionLaws.BackspaceAtStartStops | src/mention/mention.directive.ts:258-320 | Backspace at offset 1 stops the search and ends the tracking, and still searches for `substring(1, 0)`: the trigger itself off Android, the empty string on Android; the hidden flag it sets is overwritten by that search, so the list is hidden iff no candidate matches the term (on Android every candidate matches) |
| MentionLaws.SpaceEndsTracking | src/mention/mention.directive.ts:255-320 | Space ends the tracking, yet searches for all text before the caret followed by the space |
| MentionLaws.HiddenListKeysAreText | src/mention/mention.directive.ts:265-320 | with the list hidden, Tab, Enter, Escape, Up and Down are appended to the tracked span as text by their key name, and searched |
| MentionLaws.ModifiedKeysIgnored | src/mention/mention.directive.ts:249-254 | a lone Shift, or a key with Meta, Alt or Ctrl, changes nothing while tracking |
| MentionLaws.ArrowsSwallowed | src/mention/mention.directive.ts:303-306 | Left and Right while tracking only cancel the event |
| MentionLaws.NavigationMovesActiveItem | src/mention/mention.directive.ts:291-300 | Down and Up on a shown list move the active item, cancel the event and change nothing else |
| MentionLaws.EscapeStopsSearch | src/mention/mention.directive.ts:285-290 | Escape on a shown list hides it and stops the search, keeping the trigger offset |
| MentionLaws.CaretBeforeTriggerHides | src/mention/mention.directive.ts:245-247 | a caret at or before the trigger hides the list and changes nothing else |
| MentionLaws.AndroidHaltIsNoOp | src/mention/mention.directive.ts:202-208 | on Android a trimmed value that is non-empty and contains no `@` leaves the session as it was and requests no effect |
| MentionLaws.CommitReplacesTrackedSpan | src/mention/mention.directive.ts:266-284 | Tab or Enter on a shown list replaces the span from the trigger to the caret with the active item's text, dispatches an input event, hides the list, clears the search, ends the tracking and returns false |
| MentionLaws.ClickCommitsAtNodeEnd | src/mention/mention.directive.ts:227-284 | a click on an item with the caret before the trigger moves the caret to the end of the trigger's node, inserts up to there, and does not cancel the event |
| MentionLaws.WordCommits | src/mention/mention.directive.ts:351-370 | on the word path Tab or Enter on a shown list commits over the whole word |
| MentionLaws.WordCommitReplacesWord | src/mention/mention.directive.ts:322-370 | without a tracked trigger, Tab or Enter on a shown list replaces the whole trigger-prefixed word at the caret with the active item's text |
| MentionLaws.WordKeysIgnored | src/mention/mention.directive.ts:322-336 | without a tracked trigger, a key on a word that does not start with the trigger, a modified key and Space change nothing beyond the event's prelude |
| MentionLaws.WordEscapeStopsSearch | src/mention/mention.directive.ts:371-376 | on the word path, Escape on a shown list cancels the event, hides the list, stops the search, keeps the search string and returns false |
| MentionLaws.WordNavigationMovesActiveItem | src/mention/mention.directive.ts:377-386 | on the word path, Down and Up on a shown list cancel the event, move the active item, change nothing else and return false |
| MentionLaws.WordBackspaceShrinksWord | src/mention/mention.directive.ts:337-350 | on the word path, Backspace stops the search and hides the list when the caret reaches offset 0 or nothing follows the trigger in the word; otherwise it shows the list and searches the word without its trigger and its last character; with no list it throws on `hidden` |
| MentionLaws.WordBackspace | src/mention/mention.directive.ts:337-350 | the word branch's Backspace, for any key read: throws on `hidden` without a list, stops and hides when the caret reaches 0 or nothing follows the trigger, and otherwise searches the word without its trigger and last character with the list shown |
| MentionLaws.WordTyped | src/mention/mention.directive.ts:386-404 | a word-path key that is not a list key on a shown list searches the word after the trigger, followed by the typed character unless it is Backspace |
| MentionLaws.WordTypedKeySearches | src/mention/mention.directive.ts:386-404 | on the word path, a typed key searches the word after the trigger followed by the character, announces it and refreshes the list, or throws the filter's error |
| MentionLaws.SearchNeverInserts | src/mention/mention.directive.ts:317-319 | a search requests no insertion |
| MentionLaws.StopEventNeverInserts | src/mention/mention.directive.ts:182-189 | cancelling the event requests no insertion |
| MentionLaws.ExtendNeverInserts | src/mention/mention.directive.ts:303-320 | the end of a tracked key requests no insertion |
| MentionLaws.TrackedInsertsOnlyOnCommit | src/mention/mention.directive.ts:244-321 | on the tracked path only Tab or Enter on a shown list inserts text |
| MentionLaws.WordInsertsOnlyOnCommit | src/mention/mention.directive.ts:322-407 | on the word path only Tab or Enter on a shown list inserts text |
| MentionLaws.InsertOnlyOnCommit | src/mention/mention.directive.ts:201-408 | a keystroke inserts text only on Tab or Enter with the list shown, and then returns false with the list hidden and the search cleared |
| MentionLaws.SearchThrowsFromFilter | src/mention/mention.directive.ts:317-447 | a search throws only with the filter's error on the new search string |
| MentionLaws.ExtendThrowsFromFilter | src/mention/mention.directive.ts:307-320 | the end of a tracked key throws only from the filter |
| MentionLaws.TrackedThrowsFromFilter | src/mention/mention.directive.ts:244-321 | with a list, a tracked key throws only from the filter |
| MentionLaws.WordThrowsFromListOrFilter | src/mention/mention.directive.ts:322-407 | a word-path key throws only when the list is missing or the filter throws |
| MentionLaws.ThrowsOnlyWhen | src/mention/mention.directive.ts:201-408 | a keystroke throws only by reading `hidden` of a missing list on the word path of a directive that is not tracking, or by the filter reading `toLowerCase` of a missing field |
| MentionLaws.VisibleFailsWithToLowerCase | src/mention/mention.directive.ts:431-451 | computing the visible candidates can fail only by reading `toLowerCase` of a missing field |
| MentionLaws.MissingFieldThrows | src/mention/mention.directive.ts:436-447 | a search over a candidate whose filter key is missing before any match throws |
| MentionLaws.FilterFailsWithToLowerCase | src/mention/mention.directive.ts:438-446 | the only error the filter raises is reading `toLowerCase` of a missing field |
| MentionLaws.KeysMatchFailsWithToLowerCase | src/mention/mention.directive.ts:440-444 | the only error the key loop raises is reading `toLowerCase` of a missing field |
| MentionLaws.WordPathThrowsWithoutList | src/mention/mention.directive.ts:322-350 | without a list, every unmodified key other than Space on a word that starts with the trigger throws on `hidden`, requests nothing beyond the prelude and changes nothing but the stop flag |
| MentionLaws.SearchKeepsShape | src/mention/mention.directive.ts:317-459 | a search changes neither the trigger offset nor whether there is a list |
| MentionLaws.ExtendKeepsShape | src/mention/mention.directive.ts:303-320 | the end of a tracked key changes neither the trigger offset nor whether there is a list |
| MentionLaws.TrackedKeepsConsistent | src/mention/mention.directive.ts:244-321 | a tracked key never leaves a trigger tracked without a list |
| MentionLaws.WordKeepsConsistent | src/mention/mention.directive.ts:322-407 | a word-path key never leaves a trigger tracked without a list |
| MentionLaws.StepKeepsConsistent | src/mention/mention.directive.ts:201-408 | no keystroke leaves a trigger tracked without a list |
| MentionLaws.BlurStopsSearch | src/mention/mention.directive.ts:191-199 | blur, except on iOS, cancels the event, stops the search and hides the list, so nothing is tracked; on iOS nothing changes |
| Directive.ApplyConfigWellFormed | src/mention/mention.directive.ts:38-46 | a configuration update never makes the trigger falsy and keeps `keyCodeSpecified` in step with it |
| Directive.ApplyConfig | src/mention/mention.directive.ts:38-46 | the `mentionConfig` setter on values; specified by `ApplyConfigWellFormed` and `MentionDirective.SetMentionConfig` |
| Directive.MentionDirective.constructor | src/mention/mention.directive.ts:64-144 | a new directive has the default settings (`@`, `label`, no cap, filter key `label`), no items and no session |
| Directive.MentionDirective.SetMention | src/mention/mention.directive.ts:34-36 | the `mention` input replaces the items |
| Directive.MentionDirective.SetMentionConfig | src/mention/mention.directive.ts:38-46 | each option becomes `config.x \|\| this.x` and `keyCodeSpecified` is recomputed from the resulting trigger; the directive stays valid |
| Directive.MentionDirective.UpdateSearchList | src/mention/mention.directive.ts:431-459 | the list receives the visible candidates, is hidden iff there are none and takes the lower-cased search string unless it is null; nothing changes when the filter throws |
| Directive.MentionDirective.NgOnInit | src/mention/mention.directive.ts:152-170 | the items become their normalisation, and a shown list is refreshed |
| Directive.MentionDirective.NgOnChanges | src/mention/mention.directive.ts:172-176 | a change of `mention` re-runs `ngOnInit`; any other change leaves everything as it was |
| Directive.MentionDirective.ShowSearchList | src/mention/mention.directive.ts:466-477 | a missing list is created shown, with no items and no search string; an existing one is kept |
| Directive.MentionDirective.BlurHandler | src/mention/mention.directive.ts:191-199 | the fields and the effects after blur are those of `Mention.Blur`, and the directive stays valid |
| Directive.MentionDirective.KeyHandler | src/mention/mention.directive.ts:201-408 | the fields, effects and outcome after a keystroke are those of `Mention.Step`, and the directive stays valid |
| Directive.MentionDirective.TriggerKey | src/mention/mention.directive.ts:233-243 | the trigger branch leaves the state of `Mention.OpenSession` |
| Directive.MentionDirective.CommitKey | src/mention/mention.directive.ts:266-369 | a commit leaves the state of `Mention.Commit` |
| Directive.MentionDirective.SearchKey | src/mention/mention.directive.ts:317-319 | a search leaves the state of `Mention.Search` |
| Directive.MentionDirective.TrackedKey | src/mention/mention.directive.ts:244-321 | a tracked key leaves the state of `Mention.TrackedStep` |
| Directive.MentionDirective.TrackedEditKey | src/mention/mention.directive.ts:255-320 | an unmodified tracked key leaves the state of `Mention.TrackedEdit` |
| Directive.MentionDirective.ExtendKey | src/mention/mention.directive.ts:303-320 | the end of a tracked key leaves the state of `Mention.Extend` |
| Directive.MentionDirective.EscapeKey | src/mention/mention.directive.ts:285-376 | Escape leaves the state of `Mention.Abort` |
| Directive.MentionDirective.WordKey | src/mention/mention.directive.ts:322-407 | a word-path key leaves the state of `Mention.WordStep` |

## Left out

- Angular wiring is not modelled: dependency injection, `@Input`/`@Output` plumbing, `mentionListTemplate`, `setIframe` and the iframe variants of the caret and selection calls. The `searchTerm` emitter appears only as the `EmitSearchTerm` effect.
- The caret and value helpers of `mention-utils` (`getValue`, `getCaretPosition`, `setCaretPosition`, `insertValue`, `getWordFromCaretPosition`) are outside this model. Their results are inputs of a keystroke and their calls are effects.
- `startNode` is not modelled: the window selection's `anchorNode` at the trigger appears only as the node length it has when a click restores the caret.
- `showSearchList` is modelled only in the fields the key handler relies on. Creating the component, copying the display options into it, positioning it, resetting `activeIndex`, the `setTimeout` scroll reset and the item-click subscription are left out. The click is modelled as the replayed `ClickEvent`.
- The display options are copied but never read by the handlers, so they are left out: `showListHeader`, `maxHeight`, `minWidth`, `maxWidth`, `positionType`, `listItemHeight`, and `xPos`/`yPos` with their `parseInt`. The same goes for `updatePosition`.
- `stopEvent` is one `PreventDefault` effect, standing for `preventDefault`, `stopPropagation` and `stopImmediatePropagation` together.
- `JsText.ToLower`: does not model locale-dependent or non-ASCII case mapping, because only ASCII letters are folded.
- `Candidates.LexLeTotal`: `localeCompare` is modelled as code-point lexicographic order, because the browser's collation tables are outside this model.
- `Mention.TrackedSpan`, `Mention.WordStep`, `JsText.Substring` and `JsText.CharAt` count lengths and offsets in Unicode scalar values, while the browser's caret, `length`, `substring` and `charAt` count UTF-16 code units. A character outside the Basic Multilingual Plane before the caret therefore shifts the span the model reads by one for each such character; values are taken to hold Basic Multilingual Plane characters only, where the two counts agree.
- `JsText.FromCharCode`: a code that lands on a lone surrogate gives U+FFFD, because strings here are sequences of Unicode scalar values.
- A record that is not the first element of a string-headed `mention` array is passed through the promotion unchanged. The source wraps such a record as `{[labelKey]: record}`, whose label is then not a string, so its sort throws when it calls `localeCompare` on it; the model neither wraps it nor throws. `String(label)` of a non-string label is not modelled.
- `Candidates.Field`: a label or filter field that is present but not a string (a number, an object) is not modelled. Such a field is treated as absent, so reading it throws as reading `undefined` does.
- `Mention.Session`: `searchString` is `null` or a string. The source's initial `undefined` never reaches `updateSearchList` with a list present, so it is merged with `null`.
- `src/mention/mention-list.component.ts` is not part of this model. A new list is taken to start shown, empty and without a search string. Its `activateNextItem`/`activatePreviousItem` are effects.
- `Mention.InitialSession`: the source leaves `startPos` and `stopSearch` undefined until the first trigger. They are modelled as -1 and false, which every comparison the handler makes treats the same way.
- `Mention.Env`: the active item is always an item. An empty list with `activeItem` undefined at commit time is not modelled.
- NaN and non-integer numbers as a trigger or `maxItems` are not modelled. Numbers are integers.
