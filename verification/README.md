# Kotatsu filter panel, downloads and manga list: a Dafny model

This project models the decision logic of three parts of the Kotatsu manga reader.

- **The filter coordinator** (`FilterCoordinator`). It holds an immutable filter record: a sort order, a set of tags, a locale and a set of manga states.
  - Every user intent is a pure update of that record: a sort click, a tag click, a state click, a header reset, a full reset, and replacing the tags.
  - From the record it derives the filter panel's item list (`buildFilterList`) and the chip row above the manga list (`createChipsList`).
  - Tag sets are merged with `mergeTags`. This is a `TreeSet` ordered by the lower-cased title, so two tags with equal keys collapse into the one inserted first.
- **The downloads screen** (`DownloadsActivity`):
  - which bulk actions the selection mode offers;
  - where a click on a row leads;
  - what each action-mode entry does.
- **The manga list screen** (`MangaListFragment`):
  - grid span sizes;
  - collecting the selected manga;
  - select-all and the other bulk actions;
  - the swipe-to-refresh switch and the fast scroller;
  - click routing gated by the selection controller.

The sets in the filter record are modelled as duplicate-free sequences (module `LinkedSets`), which keeps each set's iteration order; the chip list depends on it. The `+` and `-` operators build `LinkedHashSet`s, `setOf` a one-element set, and `setTags` stores whatever set it is given, so the model takes the given order as is.

A `Collator` is modelled as an abstract total preorder `le` on strings. Two different strings may compare equal under it. The no-locale branch (`compareValues`) is the concrete `Tags.LexLe`, a lexicographic order on characters proved to be a total order. Dafny characters are Unicode scalar values, not UTF-16 code units (see Left out).

Results of repository calls are plain inputs:
- the known tags;
- the remote tag load;
- the tag suggestions;
- the selection controller's answers.

Modules:

| file | module | models |
|---|---|---|
| wrappers.dfy | Wrappers | `Option` for Kotlin's nullable values |
| linked_sets.dfy | LinkedSets | insertion-ordered sets: `-`, `+` |
| tags.dfy | Tags | tags, lower-casing, the comparator, `TreeSet.add`/`addAll`, `mergeTags` |
| filter_model.dfy | FilterModel | the filter record and the panel's item types |
| filter_intents.dfy | FilterIntents | the user intents |
| filter_list.dfy | FilterList | `buildFilterList`, `getTagsAsFlow` |
| filter_chips.dfy | FilterChips | `createChipsList`, the header model |
| downloads.dfy | Downloads | `DownloadsActivity`'s selection menu and clicks |
| manga_list.dfy | MangaList | `MangaListFragment`'s helpers |

Source paths in the table below are relative to the repository root.

## Model

| member | source | states |
|---|---|---|
| LinkedSets.Without | app/src/main/kotlin/org/koitharu/kotatsu/filter/ui/FilterCoordinator.kt:104 | `set - x` keeps exactly the other elements, stays duplicate-free, never grows, and is the set itself when `x` is absent |
| LinkedSets.WithoutCutsOut | app/src/main/kotlin/org/koitharu/kotatsu/filter/ui/FilterCoordinator.kt:104 | removing an element from a duplicate-free sequence cuts out just its position: the others keep their iteration order |
| LinkedSets.With | app/src/main/kotlin/org/koitharu/kotatsu/filter/ui/FilterCoordinator.kt:106 | `set + x` holds the old elements and `x`, stays duplicate-free, is unchanged when `x` was present, and otherwise is the old sequence with `x` appended at the end |
| FilterIntents.OnSortItemClick | app/src/main/kotlin/org/koitharu/kotatsu/filter/ui/FilterCoordinator.kt:88-93 | the sort order becomes the clicked one; tags, locale and states are untouched |
| FilterIntents.ListedSortClickSelects | app/src/main/kotlin/org/koitharu/kotatsu/filter/ui/FilterCoordinator.kt:88-93 | clicking the sort item the panel shows as selected leaves the filter unchanged, and after clicking any listed sort item the rebuilt panel shows that order as selected |
| FilterIntents.OnTagItemClick | app/src/main/kotlin/org/koitharu/kotatsu/filter/ui/FilterCoordinator.kt:95-110 | single-tag mode: the selection is exactly the tag, or empty when a checked chip is clicked. Multi-tag mode: the tag is present iff it was unchecked, and every other tag keeps its membership. Only the tags change, and validity is kept |
| FilterIntents.OnStateItemClick | app/src/main/kotlin/org/koitharu/kotatsu/filter/ui/FilterCoordinator.kt:112-121 | the state is present iff it was unchecked; other states keep their membership; other fields are untouched |
| FilterIntents.OnListHeaderClick | app/src/main/kotlin/org/koitharu/kotatsu/filter/ui/FilterCoordinator.kt:123-132 | tags are cleared only for the genres payload and states only for the state payload; the locale becomes null; the sort order is kept |
| FilterIntents.SetTags | app/src/main/kotlin/org/koitharu/kotatsu/filter/ui/FilterCoordinator.kt:143-147 | the tags are replaced and nothing else changes; a valid filter stays valid when the new tags have no repeats |
| FilterIntents.SetTagsOverwrites | app/src/main/kotlin/org/koitharu/kotatsu/filter/ui/FilterCoordinator.kt:143-147 | setting tags twice keeps only the second, setting the current tags changes nothing, and a reset forgets any set tags |
| FilterIntents.Reset | app/src/main/kotlin/org/koitharu/kotatsu/filter/ui/FilterCoordinator.kt:149-153 | keeps the sort order and empties tags, locale and states |
| FilterIntents.TagItemFor | app/src/main/kotlin/org/koitharu/kotatsu/filter/ui/FilterCoordinator.kt:278-280 | a rendered tag item is checked iff its tag is selected |
| FilterIntents.ListedTagItemIsTagItemFor | app/src/main/kotlin/org/koitharu/kotatsu/filter/ui/FilterCoordinator.kt:277-293 | every tag item in the panel's list, in either mode, carries its tag and is checked iff the tag is selected |
| FilterIntents.ListedTagClickTwiceRestores | app/src/main/kotlin/org/koitharu/kotatsu/filter/ui/FilterCoordinator.kt:103-107 | in multi-tag mode, clicking a tag item taken from the panel flips that tag's membership, and clicking the same tag in the panel rebuilt from the new filter restores the original selection |
| FilterIntents.MultiTagClickTwiceRestores | app/src/main/kotlin/org/koitharu/kotatsu/filter/ui/FilterCoordinator.kt:103-107 | in multi-tag mode, clicking a rendered item flips the tag's membership, and a second click restores the original selection |
| FilterIntents.StateClickTwiceRestores | app/src/main/kotlin/org/koitharu/kotatsu/filter/ui/FilterCoordinator.kt:114-118 | clicking a state item twice restores the original state selection |
| FilterIntents.SingleTagListClickSelects | app/src/main/kotlin/org/koitharu/kotatsu/filter/ui/FilterCoordinator.kt:97-102 | in single-tag mode, a click from the list (not a chip) selects exactly that tag |
| FilterIntents.ResetIdempotent | app/src/main/kotlin/org/koitharu/kotatsu/filter/ui/FilterCoordinator.kt:149-153 | resetting twice equals resetting once |
| FilterIntents.HeaderResetsComposeToReset | app/src/main/kotlin/org/koitharu/kotatsu/filter/ui/FilterCoordinator.kt:123-132 | resetting the genres header and then the state header equals a full reset |
| Tags.Lower | app/src/main/kotlin/org/koitharu/kotatsu/filter/ui/FilterCoordinator.kt:338-339 | lower-casing keeps the length and maps each letter A-Z to its lower-case form |
| Tags.LexLeTotal | app/src/main/kotlin/org/koitharu/kotatsu/filter/ui/FilterCoordinator.kt:340 | `compareValues` on strings relates any two strings |
| Tags.LexLeTransitive | app/src/main/kotlin/org/koitharu/kotatsu/filter/ui/FilterCoordinator.kt:340 | `compareValues` on strings is transitive |
| Tags.LexLeAntisymmetric | app/src/main/kotlin/org/koitharu/kotatsu/filter/ui/FilterCoordinator.kt:340 | `compareValues` ties only equal strings |
| Tags.LexLeIsTotalPreorder | app/src/main/kotlin/org/koitharu/kotatsu/filter/ui/FilterCoordinator.kt:333-341 | the no-locale comparator is a valid (total, transitive, antisymmetric) order for the tree set |
| Tags.Insert | app/src/main/kotlin/org/koitharu/kotatsu/filter/ui/FilterCoordinator.kt:321-323 | `TreeSet.add` keeps the set strictly ordered. It leaves the set unchanged when an element with the same key exists, and otherwise adds exactly the new element |
| Tags.AddAll | app/src/main/kotlin/org/koitharu/kotatsu/filter/ui/FilterCoordinator.kt:322-323 | `TreeSet.addAll` keeps the set ordered, keeps every element already there, and adds only given elements |
| Tags.MergeTags | app/src/main/kotlin/org/koitharu/kotatsu/filter/ui/FilterCoordinator.kt:320-325 | the merge is strictly ordered by title key and holds only input tags |
| Tags.SortedHasNoTies | app/src/main/kotlin/org/koitharu/kotatsu/filter/ui/FilterCoordinator.kt:320-325 | no two elements of the merged set share a key |
| Tags.AddAllCovers | app/src/main/kotlin/org/koitharu/kotatsu/filter/ui/FilterCoordinator.kt:322-323 | after `addAll`, every added tag has a same-key representative |
| Tags.AddAllNeverReplaces | app/src/main/kotlin/org/koitharu/kotatsu/filter/ui/FilterCoordinator.kt:322-323 | `addAll` never replaces an element already in the set by a same-key newcomer |
| Tags.MergeCovers | app/src/main/kotlin/org/koitharu/kotatsu/filter/ui/FilterCoordinator.kt:320-325 | every tag of either input has a same-key representative in the merge |
| Tags.MergePrefersSecondary | app/src/main/kotlin/org/koitharu/kotatsu/filter/ui/FilterCoordinator.kt:320-325 | on a key clash, the merge keeps the tag from `secondary`, because it was inserted first |
| Tags.MergeKeepsUnmatchedPrimary | app/src/main/kotlin/org/koitharu/kotatsu/filter/ui/FilterCoordinator.kt:320-325 | a primary tag whose key `secondary` lacks is represented by a primary tag |
| FilterList.SortedByOrdinal | app/src/main/kotlin/org/koitharu/kotatsu/filter/ui/FilterCoordinator.kt:246 | every supported sort order appears once, in ascending ordinal |
| FilterList.ResetButton | app/src/main/kotlin/org/koitharu/kotatsu/filter/ui/FilterCoordinator.kt:262 | a header shows the reset button iff its set is non-empty |
| FilterList.SortSection | app/src/main/kotlin/org/koitharu/kotatsu/filter/ui/FilterCoordinator.kt:252-257 | no section without sort orders. Otherwise: a header, then one item per supported order in ordinal order, each selected iff it equals the current order |
| FilterList.SortRun | app/src/main/kotlin/org/koitharu/kotatsu/filter/ui/FilterCoordinator.kt:254-256 | one sort item per order, the current one marked |
| FilterList.StateSection | app/src/main/kotlin/org/koitharu/kotatsu/filter/ui/FilterCoordinator.kt:258-269 | the state header is present iff the source has states; one item per state, checked iff selected; the reset button iff states are selected |
| FilterList.TagEntries | app/src/main/kotlin/org/koitharu/kotatsu/filter/ui/FilterCoordinator.kt:278-280 | one tag item per tag, in order, checked iff selected |
| FilterList.GenresSection | app/src/main/kotlin/org/koitharu/kotatsu/filter/ui/FilterCoordinator.kt:270-281 | the genres header is present iff tags are loading, failed, or non-empty. Every tag gets an item, checked iff selected, and a sorted tag list gives sorted items |
| FilterList.Trailer | app/src/main/kotlin/org/koitharu/kotatsu/filter/ui/FilterCoordinator.kt:282-286 | an error item iff loading failed, otherwise a loading footer iff loading, never both |
| FilterList.Matching | app/src/main/kotlin/org/koitharu/kotatsu/filter/ui/FilterCoordinator.kt:288-294 | exactly the tags whose title contains the query, ignoring case |
| FilterList.MatchingKeepsOrder | app/src/main/kotlin/org/koitharu/kotatsu/filter/ui/FilterCoordinator.kt:288-294 | filtering by the query keeps the title-key order |
| FilterList.PanelTags | app/src/main/kotlin/org/koitharu/kotatsu/filter/ui/FilterCoordinator.kt:248 | the panel's tags are ordered by key, represent every selected and every known tag, and come only from those |
| FilterList.BrowsePanel | app/src/main/kotlin/org/koitharu/kotatsu/filter/ui/FilterCoordinator.kt:251-286 | empty query: every sort order, state and merged tag has its item, marked iff it is the current or selected one, and the tag items are in key order. The genres and state headers appear exactly when they should, with reset buttons iff their set is non-empty. The list ends with the error or the loading footer, never both |
| FilterList.SearchPanel | app/src/main/kotlin/org/koitharu/kotatsu/filter/ui/FilterCoordinator.kt:287-298 | non-empty query: the result is never empty. It is exactly "nothing found" iff no tag matches; otherwise every matching tag has an item, only matching tags appear, they are checked iff selected, and they are in key order |
| FilterList.BuildFilterList | app/src/main/kotlin/org/koitharu/kotatsu/filter/ui/FilterCoordinator.kt:240-300 | in both modes, items are marked iff selected, tags are in key order and come from the selection or the known tags; the query decides the mode |
| FilterList.TagsEmissions | app/src/main/kotlin/org/koitharu/kotatsu/filter/ui/FilterCoordinator.kt:182-191 | the local tags are emitted loading first. Then either the local tags flagged as an error, or the merge of remote and local tags, in which local tags win key clashes |
| FilterList.PanelTrailerFollowsLoad | app/src/main/kotlin/org/koitharu/kotatsu/filter/ui/FilterCoordinator.kt:282-286 | during the load the panel ends with the loading footer; afterwards it shows the error iff the load failed |
| FilterChips.Take | app/src/main/kotlin/org/koitharu/kotatsu/filter/ui/FilterCoordinator.kt:202 | `take(n)` is the prefix of length `min(n, size)` |
| FilterChips.Candidates | app/src/main/kotlin/org/koitharu/kotatsu/filter/ui/FilterCoordinator.kt:199-206 | suggestions come first, cut to `limit` only when something is selected, and the rest is a prefix of the available tags padding the list up to `limit`. With a selection there are at most `limit` candidates; a short list holds every suggestion and every available tag |
| FilterChips.CandidatesMayRepeat | app/src/main/kotlin/org/koitharu/kotatsu/filter/ui/FilterCoordinator.kt:204-206 | padding does not skip suggested tags, so the candidates can repeat a tag |
| FilterChips.CandidateChips | app/src/main/kotlin/org/koitharu/kotatsu/filter/ui/FilterCoordinator.kt:210-225 | one chip per candidate, the chips' tags a permutation of the candidates. A candidate is checked at its first occurrence when it is selected, and later copies stay unchecked. Checked chips are put in front, so they appear latest first, and the unchecked ones follow in candidate order. The returned selected tags are exactly those no candidate matched, in selection order |
| FilterChips.FirstOccurrenceIsChecked | app/src/main/kotlin/org/koitharu/kotatsu/filter/ui/FilterCoordinator.kt:211-218 | an example: for candidates `[a, b, a]` and selection `[a]`, the first `a` gets the checked chip and the second `a` an unchecked one after `b` |
| FilterChips.MatchesPartition | app/src/main/kotlin/org/koitharu/kotatsu/filter/ui/FilterCoordinator.kt:211-224 | the checked and the unchecked candidates together are exactly the candidates, repeats counted |
| FilterChips.CheckedOncePerTag | app/src/main/kotlin/org/koitharu/kotatsu/filter/ui/FilterCoordinator.kt:211-218 | for any candidates, a selected tag among them is checked exactly once however often it repeats, every further copy is unchecked, and a tag that is not selected is never checked |
| FilterChips.UnmatchedWithoutRepeats | app/src/main/kotlin/org/koitharu/kotatsu/filter/ui/FilterCoordinator.kt:211-224 | without repeated candidates, the unchecked chips are exactly the unselected candidates in order |
| FilterChips.PrependSelected | app/src/main/kotlin/org/koitharu/kotatsu/filter/ui/FilterCoordinator.kt:226-236 | the unmatched selected tags become checked chips put in front of the existing row one by one, so they precede it with the last tag first, and the existing row follows unchanged |
| FilterChips.CreateChipsList | app/src/main/kotlin/org/koitharu/kotatsu/filter/ui/FilterCoordinator.kt:193-238 | empty iff there are no candidates and no selection. The row is: the selected tags matching no candidate (last first), then the matched candidates at their first occurrence (latest first), all checked, then the other candidates unchecked in candidate order. So each selected tag has exactly one checked chip, and checked chips precede unchecked ones |
| FilterChips.BuildHeader | app/src/main/kotlin/org/koitharu/kotatsu/filter/ui/FilterCoordinator.kt:161-172 | the header carries the sort order, "has selected tags" iff tags are selected, the multi-tag flag, and exactly the chip row of `createChipsList` over the candidates with limit 8, no known tags read as none: the selection checked first, then the other candidates; with a selection, at most 8 candidate chips plus the selected ones |
| Downloads.PrepareActionMode | app/src/main/kotlin/org/koitharu/kotatsu/download/ui/list/DownloadsActivity.kt:154-171 | pause shows iff every selected item can pause, resume iff every one can resume, cancel iff none is finished, and remove iff all are finished |
| Downloads.PrepareActionModeMatchesRule | app/src/main/kotlin/org/koitharu/kotatsu/download/ui/list/DownloadsActivity.kt:155-169 | the fold agrees with the declarative rule; with nothing selected all four show, otherwise cancel and remove never both show |
| Downloads.VisibilityAntitone | app/src/main/kotlin/org/koitharu/kotatsu/download/ui/list/DownloadsActivity.kt:160-165 | narrowing the selection never hides an action |
| Downloads.OnItemClick | app/src/main/kotlin/org/koitharu/kotatsu/download/ui/list/DownloadsActivity.kt:83-92 | a click the selection consumes does nothing else; otherwise an expandable item toggles and any other item opens the details |
| Downloads.OnActionItemClicked | app/src/main/kotlin/org/koitharu/kotatsu/download/ui/list/DownloadsActivity.kt:119-152 | resume, pause, cancel and remove act on the selection and finish the mode; select-all adds every id and keeps the mode; other ids are not handled |
| Downloads.SelectAllIdempotent | app/src/main/kotlin/org/koitharu/kotatsu/download/ui/list/DownloadsActivity.kt:145-148 | select-all twice equals once, and leaves every listed and previously selected id selected |
| MangaList.SpanSize | app/src/main/kotlin/org/koitharu/kotatsu/list/ui/MangaListFragment.kt:334-340 | 1 outside a grid; in a grid, 1 for a grid card and the full span count for any other item |
| MangaList.SpanSizeWithinRow | app/src/main/kotlin/org/koitharu/kotatsu/list/ui/MangaListFragment.kt:334-340 | in a grid an item spans between one cell and a whole row, and a whole row exactly when it is not a card (or the row has one cell) |
| MangaList.CollectSelectedItems | app/src/main/kotlin/org/koitharu/kotatsu/list/ui/MangaListFragment.kt:315-325 | empty without a controller or adapter; otherwise exactly the manga of manga items whose id is checked |
| MangaList.MangaIds | app/src/main/kotlin/org/koitharu/kotatsu/list/ui/MangaListFragment.kt:273-275 | exactly the ids of the adapter's manga items |
| MangaList.OnActionItemClicked | app/src/main/kotlin/org/koitharu/kotatsu/list/ui/MangaListFragment.kt:270-300 | select-all is refused without an adapter; otherwise it adds every manga id and keeps the mode. Share, favourite and save act on exactly the collected selection and finish the mode; other ids are not handled |
| MangaList.SelectAllCollectsEveryManga | app/src/main/kotlin/org/koitharu/kotatsu/list/ui/MangaListFragment.kt:272-278 | after select-all the collected selection is every manga card in the adapter |
| MangaList.OnLoadingStateChanged | app/src/main/kotlin/org/koitharu/kotatsu/list/ui/MangaListFragment.kt:189-195 | enabled iff refreshing, or swiping is allowed and nothing loads; refreshing is cleared when loading ends |
| MangaList.OnFastScrollStart | app/src/main/kotlin/org/koitharu/kotatsu/list/ui/MangaListFragment.kt:306-309 | the fast scroller disables swiping and leaves the refresh indicator alone |
| MangaList.OnFastScrollStop | app/src/main/kotlin/org/koitharu/kotatsu/list/ui/MangaListFragment.kt:311-313 | releasing the fast scroller restores swiping to what the fragment allows |
| MangaList.OnRefresh | app/src/main/kotlin/org/koitharu/kotatsu/list/ui/MangaListFragment.kt:166-169 | a swipe on the enabled layout starts the refresh indicator |
| MangaList.DisallowedNeverRefreshes | app/src/main/kotlin/org/koitharu/kotatsu/list/ui/MangaListFragment.kt:189-195 | if the fragment disallows swiping, then from the layout as created (line 117) no sequence of events ever enables the layout or shows a refresh |
| MangaList.LoadEndDuringDragReenables | app/src/main/kotlin/org/koitharu/kotatsu/list/ui/MangaListFragment.kt:189-195 | after `onFastScrollStart` (lines 306-309) disables swiping, a loading end during the drag sets enabled to refreshing-or-allowed, so with swiping allowed a swipe mid-drag starts a refresh |
| MangaList.SettlesWhenIdle | app/src/main/kotlin/org/koitharu/kotatsu/list/ui/MangaListFragment.kt:189-195 | after any events, loading ending and the fast scroller stopping put the layout back as created at line 117: not refreshing, and enabled iff allowed |
| MangaList.OnClick | app/src/main/kotlin/org/koitharu/kotatsu/list/ui/MangaListFragment.kt:139-163 | a consumed click never navigates. An item click shows the preview if the host can, otherwise opens the details; a read click opens the reader; a tag click opens that tag's list. On a detached fragment the item and tag clicks do nothing, while the read click still calls `startActivity`, which throws |

## Left out

- Coroutine and flow plumbing is not modelled: `stateIn`, `combine`, `SuspendLazy`, the lazy `async` tag load, and `observeAvailableTags`' interim empty emission. The lists the flows carry are inputs.
- FilterList.TagsEmissions: the retry-once logic of `tryLoadTags` is not modelled; the remote load's final outcome is an input.
- Repository calls are inputs: `getTags`, `getTagsSuggestion`, `findTags`, `sortOrders`, `states` and `isMultipleTagsSupported`. The write to `repository.defaultSortOrder` in `onSortItemClick` is not modelled.
- Tags.LexLeIsTotalPreorder: a locale's `Collator` is only assumed to be a total preorder. Its actual rules are locale data that cannot be modelled here.
- Tags.Lower: only the letters A-Z are lower-cased. Kotlin's `lowercase()` uses the invariant locale's full Unicode case mapping, which can change a string's length (U+0130 becomes two characters). `contains(ignoreCase = true)` instead folds character by character. The model agrees with both only on ASCII titles.
- Tags.LexLe: compares Unicode scalar values, while Kotlin's `compareTo` on strings compares UTF-16 code units. The two orders differ when a character above U+FFFF meets one in U+E000-U+FFFF: here "\uFFFF" sorts first, in Kotlin the surrogate pair does.
- A `MangaTag`'s `source` field is dropped. All tags of one coordinator come from the same source.
- `SortOrder` and `MangaState` are identified by their enum ordinal. Their names are irrelevant to the logic.
- MangaList.OnClick: the selection controller's own reaction to a click is not modelled. Nor is the host activity's `showPreview`. Their answers are inputs.
- Downloads.OnItemClick: the selection controller's answer is an input. `onItemLongClick` and the per-row cancel, pause and resume buttons only forward to the view model or send broadcasts.
- Downloads.PrepareActionMode: `viewModel.snapshot(ids)` (the lookup of the selected downloads by id) belongs to the view model and is not shown; the snapshot is an input.
- MangaList.OnRefresh: `SwipeRefreshLayout` delivers a swipe only while enabled. This is the widget's documented behaviour, taken as given. The `viewModel.onRefresh()` call is not modelled.
- Android lifecycle and views are not modelled: view binding, window-inset padding, layout managers, item decorations, menu inflation, intents, broadcasts, and the app bar collapse on fast scroll.
- The grid scale (a floating-point value) and `MangaListSpanResolver` are not modelled; the grid's span count is an input to `SpanSize`.
- `SourcesCatalogActivity` is not part of this model. It only wires tabs and a search view, filtering an enum that is not shown.
- `HistoryListMenuProvider` is not part of this model. It is dialog plumbing around the wall clock and `startOfDay`, which is not shown.
- FilterChips.CreateChipsList: chip tint, icon and checkability are constants of the source and are dropped.
