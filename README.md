# altlist in Dafny

A model of the two pieces of logic of the `altlist` package (a searchable,
multi-select list panel for Bubble Tea terminal UIs) and proofs about them.

- `search.dfy`, module `Search`: models `search.go`.
  - `MakeSearchFunc` is the substring filter the list uses. Its term is
    lower-cased unless `CaseSensitive` is set, then split on single spaces.
    Every target collects, for each sub-term in order, the run of offsets
    covered by the first occurrence of that sub-term. Targets without offsets
    are dropped only under `MatchesOnly`. With `SortByMatchCount`, the ranks
    are then stable-sorted by offset count, ascending or, with
    `ReverseSort`, descending.
  - `AltFilter` completes the ranks found by the fuzzy matcher into a
    ranking of every target: the fuzzy ranks first, then every target they
    missed, in increasing order, with no offsets.
  - Both are methods with the loops of the source. Each is proved equal to a
    specification function (`SearchResult`, `Completed`), and the promised
    properties are proved about those functions: bounds, membership, order,
    permutation and stability.
- `list.dfy`, module `List`: models `list.go`.
  - `SearchList` is a class with the panel's list, search input and
    `redraw` flag. Its `Update` and `UpdateTeaMsg` methods are proved
    against the functions `Route` and `TeaStep` of the panel's state. The
    lemmas about those functions state:
    - the input mirrors the filter;
    - focus follows the transitions into and out of filtering;
    - `redraw` and forwarding to the input happen only while filtering;
    - when a key is marked unused;
    - the returned command is always a batch.
  - `DefaultItemDelegateAlt` holds the sparse selection map. It has the
    toggle closure installed by `SelectableItemsDelegate` and the decisions
    of `Render`: the prefix glyph, the style class and the highlighted
    offsets.
  - `KeyUsedByList` is the search over the list's key bindings.

The widgets the code wraps are parameters: the bubbles list's `Update`, the
text input's commands, the panel framework's key mapping and `key.Matches`.
The list is seen through a record of what the code reads of it: filter
state, cursor, help visibility, filter value, size and items. Commands are
opaque tokens, and `tea.Batch` is a constructor. The "mark unused" callback
becomes a returned boolean.

Strings are sequences of characters standing for the bytes of Go strings.
`strings.Index`, `strings.Split(term, " ")` and `strings.ToLower` (ASCII
only) are functions with proved contracts. `slices.SortStableFunc` is a
stable insertion sort on values.

## Behaviour as written

In these places the code may surprise a reader. The model follows the code
as written.

- Only the term is lower-cased; targets are compared as given
  (search.go:50-52). With `CaseSensitive` off, the term "Alpha" becomes
  "alpha" and no longer occurs in "Alpha" (`CaseFoldKeepsTargetCase`).
- The term is split on a single space, not on whitespace (search.go:53).
  Consecutive spaces give empty sub-terms. An empty sub-term occurs at
  offset 0 and contributes an empty run, so it never makes a target match.
- Without sorting, targets without matches keep their original positions
  among the matches; they are not moved to the end (search.go:55-73).
- `AltFilter` leaves the fuzzy offsets unchanged: the loop at
  search.go:28-30 writes each offset back onto itself. The shift by one
  happens in `Render` (list.go:255-258), where it compensates for the
  one-character prefix glyph (`HighlightAligned`).
- `Render` uses the selected style for the cursor row only when the list is
  not filtering (list.go:264).
- The toggle closure reports `m.Items()[m.Index()]` (list.go:313-319).
  `Items()` holds every item, while `Index()` is the cursor's position among
  the visible items. With a filter applied, the reported item can differ
  from the one under the cursor. The model keeps both as the code reads
  them.

## Model

| member | source | states |
|---|---|---|
| `Search.IndexOf` | search.go:60 | `strings.Index`: -1 exactly when the sub-term occurs nowhere, else its least occurrence |
| `Search.Split` | search.go:53 | `strings.Split` on " ": at least one piece, no piece holds a space, and joining the pieces with single spaces gives back the term |
| `Search.ToLower` | search.go:50-52 | ASCII `strings.ToLower`: same length, no upper-case letter left, other bytes kept, each upper-case letter replaced by its lower-case partner |
| `Search.ToLowerIdempotent` | search.go:50-52 | lower-casing an already lower-cased term changes nothing |
| `Search.SplitWithoutSpace` | search.go:53 | a term without spaces is a single sub-term |
| `Search.TermOffsets` | search.go:60-65 | a sub-term that does not occur contributes nothing. One that occurs contributes `match+i` for each `i < len(t)`, where `r[match+i] == t[i]`, all inside the target |
| `Search.OffsetsInBounds` | search.go:58-68 | every offset recorded for a target lies in `[0, len(r))` |
| `Search.OffsetsLength` | search.go:58-68 | a target's offset count is the sum of the lengths of the sub-terms that occur in it |
| `Search.OffsetsNonEmpty` | search.go:58-70 | a target has offsets iff some non-empty sub-term occurs in it, so empty sub-terms never make a match |
| `Search.TargetMatches` | search.go:57-69 | the inner loop over sub-terms builds exactly the concatenation, in sub-term order, of their runs |
| `Search.MakeSearchFunc` | search.go:48-86 | the filter's loops and sort compute exactly `SearchResult` |
| `Search.CollectElements` | search.go:55-73 | every collected rank is the rank of its own target with that target's offsets, it was kept by the `MatchesOnly` test, and indices strictly increase |
| `Search.CollectMembership` | search.go:70-72 | a target is collected iff it has offsets or `MatchesOnly` is off |
| `Search.CollectAll` | search.go:56-73 | with `MatchesOnly` off, the i-th collected rank is `Rank(i, offsets of target i)` |
| `Search.InsertPermutes` | search.go:76-81 | inserting into the sorted rest adds exactly the element |
| `Search.InsertSortedStable` | search.go:76-81 | insertion before the first element with a key that is not smaller keeps the order by key, then by index |
| `Search.SortByCountCorrect` | search.go:75-82 | the stable sort of ranks with increasing indices is a permutation, sorted by offset count, and by index among equal counts |
| `Search.SearchResultWellFormed` | search.go:48-86 | every returned index is a valid target position, no target is returned twice, and every offset lies inside its target |
| `Search.SearchResultAllTargets` | search.go:56-73 | with `MatchesOnly` off there are exactly `len(targets)` ranks, and without sorting rank `i` has `Index == i` |
| `Search.SearchResultUnsortedOrder` | search.go:55-73 | without sorting, returned indices strictly increase |
| `Search.SearchResultMembership` | search.go:58-72 | target `i` is returned iff `MatchesOnly` is off or some non-empty sub-term occurs in it. Under `MatchesOnly` every returned rank has offsets |
| `Search.SearchResultSorted` | search.go:75-82 | the sorted result is a permutation of the unsorted one. Offset counts are non-decreasing, or non-increasing with `ReverseSort`. Equal counts keep increasing `Index` order |
| `Search.ResultPermutesUnsorted` | search.go:75-84 | the returned ranks are a permutation of the collected ranks, sorted or not |
| `Search.SearchResultCaseFold` | search.go:50-53 | case-insensitive search is case-sensitive search with the lower-cased term; targets are not lower-cased |
| `Search.CaseFoldKeepsTargetCase` | search.go:50-60 | with `CaseSensitive` off, "Alpha" finds nothing in the target "Alpha" |
| `Search.MissingMembers` | search.go:38-44 | the positions the second loop fills are exactly the unranked positions below `len(targets)`, in increasing order |
| `Search.MissingLength` | search.go:22-44 | with distinct in-range fuzzy indices, exactly `len(targets) - len(ranks)` positions are missing, so `result[j+len(ranks)]` stays in bounds |
| `Search.AltFilter` | search.go:21-45 | the two loops fill the preallocated result with exactly `Completed`, of length `len(targets)` |
| `Search.CompletedIsPermutation` | search.go:21-45 | the indices of the completed ranking are a permutation of `0..len(targets)-1`: all in range, distinct, and every position present |
| `Search.CompletedLayout` | search.go:25-44 | the fuzzy ranks come first, in fuzzy order with offsets unchanged. The rest are the unranked positions in increasing order, with empty offsets |
| `List.TeaStepSyncsInput` | list.go:138-157 | the list becomes the list's own update, and the search input then holds the filter value with its cursor at the end, whatever the message |
| `List.TeaStepUnused` | list.go:133-192 | the key is marked unused exactly when it is a `tea.KeyMsg`, the list is not filtering afterwards, and neither help visibility, filter state nor cursor changed |
| `List.TeaStepFocus` | list.go:131-166 | the list's command is always batched first. Entering filtering focuses the input and batches its focus command next. Leaving it blurs the input. Otherwise focus is untouched |
| `List.TeaStepRedraw` | list.go:168-186 | `redraw` is never cleared. It is set, and the input's command batched, only while filtering after a `teapb.KeyMsg` or a blink |
| `List.TeaStepKeepsFocusInSync` | list.go:148-166 | if the input was focused exactly while filtering, it still is after the step |
| `List.RouteKeepsFocusInSync` | list.go:100-128 | `Update` keeps the input focused exactly while the list is filtering |
| `List.RouteBypass` | list.go:100-121 | focus grants, revocations, resizes and unmappable panel keys return nil and mark nothing. Only a resize changes the list: width to `Width`, height to `Height-1` |
| `List.RouteBatchesListCmd` | list.go:115-198 | every other message reaches the list, with panel keys mapped first, and the result is `tea.Batch` of a non-empty slice led by the list's command, so the `return nil` at list.go:198 is unreachable |
| `List.RouteRedrawAndUnused` | list.go:116-192 | through `Update` a panel key arrives as a `tea.KeyMsg`, so only a blink can set `redraw`, and only a mapped panel key can be marked unused |
| `List.SearchList.HandleSizeMsg` | list.go:360-364 | the list gets the new width and one row less than the height; nothing else changes |
| `List.SearchList.UpdateTeaMsg` | list.go:130-198 | the new fields, the command and the unused mark are exactly `TeaStep` of the old fields, and the focus invariant is kept |
| `List.SearchList.Update` | list.go:100-128 | the new fields, the command and the unused mark are exactly `Route` of the old fields, and the focus invariant is kept |
| `List.KeyUsedByList` | list.go:333-358 | true exactly when the message is a `tea.KeyMsg` matching one of the fourteen bindings |
| `List.ToggledFlips` | list.go:314-318 | a toggle flips whether the cursor's row is shown selected, and leaves every other entry alone |
| `List.ToggledTwice` | list.go:311-322 | toggling twice restores what every row shows, and the toggled entry then exists |
| `List.DefaultItemDelegateAlt.ToggleSelection` | list.go:311-322 | a matching key toggles the cursor's entry: absent becomes true, present is negated. The callback gets the cursor's item and the new value. An out-of-range cursor panics after the map was written. Other messages return nil and change nothing |
| `List.DefaultItemDelegateAlt.Render` | list.go:205-290 | rows are drawn only for default items when the width is positive. The prefix is the bullet iff the entry is present and true. The row is dimmed iff filtering with an empty value, otherwise selected iff it is the cursor row and not filtering, otherwise normal. Offsets are highlighted (shifted by one, or none past the items) iff filtered and not dimmed |
| `List.DefaultItemDelegateAlt.HighlightAligned` | list.go:219-269 | every highlighted offset points, in the prefixed title, at the character the filter matched in the item's own title |

## Left out

- Unicode lower-casing: `ToLower` folds ASCII letters only.
- UTF-8: the byte/rune distinction of Go strings is not modelled. Search
  offsets are character offsets, and so are the rune offsets of `Render`.
- The in-place algorithm of `slices.SortStableFunc`. The model sorts values
  by stable insertion and proves the order the library must produce.
- `fuzzy.Find` and its scoring. Its result is a parameter of `AltFilter`,
  with the indices distinct and in range. Otherwise search.go:31 or
  search.go:41 would write past the end of `result`.
- The internals of the bubbles list. Its `Update`, filter-state
  transitions, pagination and `MatchesForItem` are parameters, or a
  parameter of `Render`.
- The text input's internals: the sanitising `SetValue` does, the cursor
  blink state, width and prompt. Its `Update` is a parameter giving the
  returned command. Its value, cursor position and focus are taken to be
  unchanged by a forwarded blink or panel key.
- How commands run, and what `tea.Batch` does with them.
- Rendering output. These are not modelled:
  - writing to the `io.Writer`;
  - lipgloss styles, `StyleRunes` and `Inherit`;
  - `ansi.Truncate`: `Render`'s title is the title before truncation;
  - the description's line splitting and `ShowDescription`.
- `Init` (the blink command), `View`, `NeedsRedraw` (which always returns
  true), `NewSearchList` and its widget setup, `convertToDefaultItems`,
  `setPadding`, and the rest of `SelectableItemsDelegate`, whose closure is
  modelled.
- `DebugPrintf`, the tcell viewport, and the commented-out `Draw`,
  `SetView` and `HandleRecvFocus` blocks (list.go:59-94).
- `HandleRecvFocus` and `HandleRecvFocusRevoke` have value receivers, so
  their writes are lost. `Update` models them as changing nothing.
