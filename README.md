# gmail-delete: the deletion loop and its queries, in Dafny

The Gmail Bulk Deleter content script (`content.js`) deletes every message that
matches a search in batches. It builds a Gmail search query from the popup's
configuration, opens the search, and then runs a loop. Each pass of the loop
selects every visible row, waits for the toolbar's delete button, clicks it and
judges whether the delete worked. It does this until the page is empty, the
selection fails, three deletes in a row have failed or the page limit is
reached. It answers with the number deleted, the number of pages, the search
query, and a query that finds the same messages in the trash.

The model treats the page as an input. Every DOM probe becomes part of a
per-iteration observation record:

- a `Dom.Snapshot` maps each CSS selector to its number of matches;
- a delete-button probe lists the candidate elements `findDeleteButton` looks at;
- the undo notices are booleans.

The project has four modules:

- `Text` (`text.dfy`): the whitespace set of JavaScript's `trim` and `\S`
  (WhiteSpace and LineTerminator code points), and `Trim`.
- `Query` (`query.dfy`): the search query (as a function and as the
  string-building method), and the trash-query rewrite
  `replace(/category:\S+/g, '')`, `trim`, `in:trash ` prefix, `trim`.
- `Dom` (`dom.dfy`): `countEmails` and `countSelectedEmails` as "first non-zero
  count in a list of selector counts", the checkbox-clicking loop,
  `findDeleteButton`, and the bounded delete-button wait (20 attempts; a button
  is enabled when its class list lacks `T-I-JW`).
- `Deletion` (`deletion.dfy`): one loop iteration (`ProcessPage`), the loop
  (`DeletePages`) and `handleDeleteEmails` (`HandleDeleteEmails`). Each is
  proved against a specification function (`Classify`, `LoopFrom`,
  `HandleDelete`). The lemmas then state the properties over the sequence of
  iterations a run goes through (`Trace`).

The observations are a finite sequence, and past its end every probe reads as
an empty page, so the modelled loop stops at the first unobserved page. The
model therefore covers the runs that end (see "Left out" for `maxPages` of 0).
A positive `maxPages` bounds the pages independently of the observations.

## Model

| member | source | states |
|---|---|---|
| Text.Trim | content.js:302-303 | `trim` removes exactly the leading and trailing whitespace: the result is a slice of the input framed by whitespace on both sides and neither begins nor ends with whitespace |
| Text.TrimFixedPoint | content.js:302-303 | `trim` leaves a string unchanged iff it is empty or has no whitespace at either end |
| Text.TrimIdempotent | content.js:302-303 | trimming twice is the same as trimming once |
| Query.BuildSearchQuery | content.js:24-36 | the query built with `+=` and the `after:` prefix is the search terms joined by single spaces |
| Query.SearchQuery | content.js:24-36 | the query is exactly `[after:S ]before:E[ is:unread][ category:C][ label:L]`, each optional part present iff its field is non-empty/true |
| Query.PlainSearchQuery | content.js:24 | with no optional field the query is `before:` + endDate |
| Query.SearchQueryWords | content.js:24-36 | when no field holds a space, splitting the query on spaces gives back exactly its terms in order |
| Query.SplitJoin | content.js:24-36 | splitting on single spaces undoes joining with single spaces for space-free words |
| Query.StripCategories | content.js:302 | the global replace `replace(/category:\S+/g, '')` never lengthens the query; with `StripFirstMatch` and `StripUnchangedIff` it is fixed completely: the text before the first match is kept, that match (the key and its whole non-whitespace run) is deleted and the scan resumes after it, and a query without a match is unchanged |
| Query.StripClearPrefix | content.js:302 | text in front of the first match survives the replace unchanged |
| Query.StripFirstMatch | content.js:302 | the first match decides the replace: the text before it is kept, the key with its whole non-whitespace run is deleted, and the scan resumes after it |
| Query.StripMiddleTerm | content.js:302 | a `category:` term between pieces without matches is deleted with nothing else: the space before it and the text after it stay |
| Query.StripKeepsSpaces | content.js:302 | the replace deletes only non-whitespace characters: the whitespace characters of the query survive, in order |
| Query.StripLeavesNoToken | content.js:302 | after the global replace no `category:` followed by a non-whitespace character is left, not even one formed across a deleted match |
| Query.StripUnchangedIff | content.js:302 | the replace never lengthens the query, leaves it unchanged when it holds no match and shortens it when it holds one |
| Query.TrashQuery | content.js:302-303 | the trash query is `in:trash`, followed by a space and the trimmed rewritten query when that is non-empty; it always begins with `in:trash`, and no `category:` immediately followed by a non-whitespace character remains in it |
| Query.TrashQueryKeepsGap | content.js:302-303 | for a query with no start date, `unreadOnly` false, a category without whitespace, a label that does not end in whitespace, and no `category:` match inside the end date or the label, the trash query is `in:trash before:<end>  label:<label>`: the deleted category term leaves two spaces behind |
| Query.TrashQueryWithoutCategory | content.js:302-303 | a query without a `category:` match maps to `in:trash ` followed by the trimmed query (just `in:trash` when that is empty) |
| Dom.FirstMatchSpec | content.js:331-339 | the selector loop returns 0 iff no selector matches, and otherwise the count of a matching selector preceded only by non-matching ones |
| Dom.FirstMatchAt | content.js:331-337 | the first selector that matches decides the count |
| Dom.FirstNonZero | content.js:331-339 | the `for` loop with early return computes the first non-zero selector count |
| Dom.CountEmails | content.js:322-340 | `countEmails` is the count of the first row selector that matches, else 0 |
| Dom.CountSelectedEmails | content.js:342-368 | `countSelectedEmails` is the first non-zero selected-row count, else the checked boxes minus one when more than one is checked, else 0 |
| Dom.SelectedCountCases | content.js:351-367 | each of those three cases holds, and the count is 0 iff no selected-row selector matches and at most one box is checked; the count is a `nat`, never negative |
| Dom.ClickUnchecked | content.js:113-123 | the checkbox loop clicks exactly the boxes not already checked and counts them |
| Dom.FindDeleteButton | content.js:370-381 | `find(btn => btn !== null)` over the candidate array returns nothing or one of the candidates (characterised fully by the next row) |
| Dom.FindDeleteButtonSpec | content.js:370-381 | `findDeleteButton` returns nothing iff every candidate is null, else the first non-null candidate |
| Dom.WaitFromSpec | content.js:163-181 | from any attempt on, the wait skips exactly the attempts without an enabled button and stops at the first that has one or at attempt 20 |
| Dom.ButtonWaitSpec | content.js:163-181 | the wait takes at most 20 attempts; it ends enabled iff some attempt saw an enabled button, and otherwise ends with whatever the twentieth attempt found (possibly none, possibly a disabled button) |
| Dom.NoButtonIff | content.js:163-187 | the wait ends without a button iff no attempt saw an enabled button and the last attempt saw no button at all |
| Dom.WaitForDeleteButton | content.js:159-181 | the `while` loop re-querying the button computes the wait's specification |
| Deletion.SelectEmails | content.js:72-146 | the three selection methods (shortcut, unchecked checkboxes when fewer than the visible rows are selected, select-all when fewer than two are selected and the box is unchecked) end with the specified selection count and click count |
| Deletion.ConfirmDeletion | content.js:227-276 | the delete is judged by the undo notice, then by zero still selected, then by the `#` shortcut; a success adds the selection to the total and resets the failure counter to 0; a failure leaves the total and raises the counter by exactly one |
| Deletion.ProcessPage | content.js:55-298 | one pass of the loop body ends as `Classify` says (failure cap, empty page, empty selection, no button, or processed) and moves the counters accordingly |
| Deletion.DeletePages | content.js:46-299 | the `while` loop over pages ends as the specification `LoopFrom` says: aborted, or finished with its counters |
| Deletion.HandleDeleteEmails | content.js:19-320 | the whole handler returns what `HandleDelete` specifies: the select timeout error, the missing-button error, or the success record |
| Deletion.ClassifyPage | content.js:56-194 | an iteration stops at the failure cap iff three failures came before, on an empty page iff no rows are visible, on an empty selection iff nothing got selected, aborts iff the button wait found no button; otherwise the delete goes ahead (even with a disabled button) |
| Deletion.ReplayCounters | content.js:46-275 | after any iterations from the start, `currentPage` counts the iterations, `totalDeleted` is the sum of `selectedCount` over the successful ones and `consecutiveFailures` is the streak of failures since the last success |
| Deletion.CounterStep | content.js:231-275 | each iteration adds one page; a successful delete (undo notice, zero still selected, or the `#` shortcut) adds `selectedCount` to the total and resets the failure counter to 0; a failed one leaves the total and raises the counter by exactly one; a breaking iteration changes neither |
| Deletion.CreditedMonotone | content.js:231-275 | the running total never decreases |
| Deletion.TraceIterations | content.js:51-69 | iteration k of a run reads page k and is classified under the failure streak before it |
| Deletion.TraceContinues | content.js:287-298 | every iteration but the last was processed, saw more emails and left the page limit unreached |
| Deletion.TraceEnd | content.js:51-52 | a run enters no iteration iff `maxPages` is negative; after its last iteration it stops because that iteration broke out or aborted, found `newEmailCount == 0`, or reached the page limit |
| Deletion.TracePageBound | content.js:51-52 | the page counter counts every iteration entered (including one that breaks), at most `maxPages` when that is positive |
| Deletion.TraceStreak | content.js:56-59 | the failure counter never exceeds 3, and an iteration stops at the cap iff three failures in a row came before it |
| Deletion.TraceAbort | content.js:183-187 | a run aborts only in its last iteration, and iff some iteration found no delete button |
| Deletion.LoopFromRun | content.js:51-299 | the loop's end is read off its iterations: an abort iff the last one found no button, else the counters they leave |
| Deletion.HandleDeleteResult | content.js:305-318 | the response is a failure iff the list never appeared or an iteration found no button, with the matching message; otherwise `deleted` is the credited total, `pages` the number of iterations (at most `maxPages` when positive), `searchQuery` the built query, and `trashQuery` is `TrashQuery` of that search query, so it starts with `in:trash` and keeps no category term |

## Left out

- DOM access (`querySelector(All)`, `focus`, `click`, synthetic keyboard and mouse events): every probe result is an input of the observation record, and the clicks have no modelled effect beyond the counts the next probe reports.
- `sleep`, `setTimeout` and the `MutationObserver` in `waitForElement`: the 10-second wait for the select-all checkbox is a boolean input, `selectAppeared`, with the timeout's error message. The pause every 20 checkbox clicks is a timer and is not modelled.
- Navigation through `window.location.hash` with `encodeURIComponent`: a browser side effect and a foreign encoding.
- Chrome extension messaging and the load guard (content.js:1-17): host plumbing. Exceptions other than the two modelled errors are not modelled.
- The undo notice's `textContent.toLowerCase().includes('conversation')` test: Unicode case folding is not modelled, and the notice is a boolean input.
- `findOlderButton`: it is never called.
- popup.js: form reading, tab scripting and status rendering. Its validation is not part of this model. In particular `BuildSearchQuery` does not require a non-empty end date, since the content script itself does not check it. The configuration's fields are strings and `maxPages` an integer; a missing field rendered as `undefined` is not modelled.
- generate_icons.js and generate_icons.py: image drawing with no logic to verify.
- Console logging.
- Runs that do not end: with `maxPages` of 0 (the popup's default when the field is empty) the source's loop has no page bound, and with a page that keeps showing rows and a delete judged successful it may go on forever. The model's observations are finite and read as an empty page past their end, so `DeletePages` and every lemma about `Trace` cover only runs that end; `TracePageBound` (`pages <= |observations| + 1`) is a property of that finiteness, not of the source.
