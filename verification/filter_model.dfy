/**
 * The filter record (`MangaListFilter.Advanced`) and the items of the filter
 * panel (`ListHeader`, `FilterItem.*`, `LoadingFooter`).
 */
module FilterModel {
  import opened Wrappers
  import opened Tags
  import opened LinkedSets

  /** A `SortOrder` enum constant, identified by its ordinal. */
  datatype SortOrder = SortOrder(ordinal: nat)

  /** A `MangaState` enum constant, identified by its ordinal. */
  datatype MangaState = MangaState(ordinal: nat)

  /** `MangaListFilter.Advanced(sortOrder, tags, locale, states)`. */
  datatype Filter = Filter(
    sortOrder: SortOrder,
    tags: seq<Tag>,
    locale: Option<string>,
    states: seq<MangaState>)
  {
    /** The two set fields hold no duplicates, as Kotlin sets do not. */
    predicate Valid() {
      Distinct(tags) && Distinct(states)
    }
  }

  /** The string resources the panel refers to; `NoText` is the resource id 0. */
  datatype StringRes = NoText | SortOrderText | StateText | GenresText | ResetText
                     | FilterLoadError | NothingFound

  /** `ListHeader(textRes, buttonTextRes, payload)`. */
  datatype ListHeader = ListHeader(text: StringRes, button: StringRes, payload: StringRes)

  /** `FilterItem.Sort`. */
  datatype SortItem = SortItem(order: SortOrder, isSelected: bool)

  /** `FilterItem.State`. */
  datatype StateItem = StateItem(state: MangaState, isChecked: bool)

  /** `FilterItem.Tag`. */
  datatype TagItem = TagItem(tag: Tag, isMultiple: bool, isChecked: bool)

  /** One entry of the filter panel's list. */
  datatype ListItem =
    | Header(header: ListHeader)
    | SortEntry(sort: SortItem)
    | StateEntry(state: StateItem)
    | TagEntry(tag: TagItem)
    | ErrorEntry(text: StringRes)
    | LoadingFooter

  /** What the coordinator reads from the manga source's repository. */
  datatype Repository = Repository(
    sortOrders: set<SortOrder>,
    states: seq<MangaState>,
    isMultipleTagsSupported: bool)

  /** `TagsWrapper`: the known tags and the progress of the remote load. */
  datatype TagsWrapper = TagsWrapper(tags: seq<Tag>, isLoading: bool, isError: bool)
}
