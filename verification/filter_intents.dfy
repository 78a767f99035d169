/**
 * The user intents of `FilterCoordinator`: each one is a pure update of the
 * filter record.
 */
module FilterIntents {
  import opened Wrappers
  import opened Tags
  import opened LinkedSets
  import opened FilterModel
  import opened FilterList

  /** `onSortItemClick`: only the sort order changes. */
  function OnSortItemClick(f: Filter, item: SortItem): (r: Filter)
    ensures r.sortOrder == item.order
    ensures r.tags == f.tags && r.locale == f.locale && r.states == f.states
  {
    f.(sortOrder := item.order)
  }

  /**
   * Clicking the sort item the panel shows as selected changes nothing, and
   * after clicking any listed sort item the rebuilt panel shows that order as
   * the selected one.
   */
  lemma ListedSortClickSelects(le: (string, string) -> bool, repo: Repository, w: TagsWrapper,
                               f: Filter, query: string, it: ListItem)
    requires IsTotalPreorder(le)
    requires it in BuildFilterList(le, repo, w, f, query) && it.SortEntry?
    ensures it.sort.isSelected ==> OnSortItemClick(f, it.sort) == f
    ensures SortEntry(SortItem(it.sort.order, true)) in BuildFilterList(le, repo, w, OnSortItemClick(f, it.sort), query)
  {
  }

  /**
   * `onTagItemClick`. In single-tag mode the selection becomes exactly the
   * clicked tag, except that clicking a checked chip clears it; in multi-tag
   * mode the clicked tag is toggled according to the item's check mark.
   */
  function OnTagItemClick(f: Filter, item: TagItem, isFromChip: bool): (r: Filter)
    ensures r.sortOrder == f.sortOrder && r.locale == f.locale && r.states == f.states
    ensures !item.isMultiple ==>
      forall t :: t in r.tags <==> t == item.tag && !(isFromChip && item.isChecked)
    ensures !item.isMultiple ==> |r.tags| <= 1
    ensures item.isMultiple ==> (item.tag in r.tags <==> !item.isChecked)
    ensures item.isMultiple ==> forall t :: t != item.tag ==> (t in r.tags <==> t in f.tags)
    ensures f.Valid() ==> r.Valid()
  {
    var newTags :=
      if !item.isMultiple then
        if isFromChip && item.isChecked then [] else [item.tag]
      else if item.isChecked then Without(f.tags, item.tag)
      else With(f.tags, item.tag);
    f.(tags := newTags)
  }

  /** `onStateItemClick`: the clicked state is toggled according to its check mark. */
  function OnStateItemClick(f: Filter, item: StateItem): (r: Filter)
    ensures r.sortOrder == f.sortOrder && r.tags == f.tags && r.locale == f.locale
    ensures item.state in r.states <==> !item.isChecked
    ensures forall s :: s != item.state ==> (s in r.states <==> s in f.states)
    ensures f.Valid() ==> r.Valid()
  {
    var newStates :=
      if item.isChecked then Without(f.states, item.state) else With(f.states, item.state);
    f.(states := newStates)
  }

  /**
   * `onListHeaderClick` (the header's reset button): clears the set the header
   * stands for, drops the locale, and keeps the sort order.
   */
  function OnListHeaderClick(f: Filter, header: ListHeader): (r: Filter)
    ensures r.sortOrder == f.sortOrder
    ensures r.locale == None
    ensures |r.tags| == 0 <==> header.payload == GenresText || |f.tags| == 0
    ensures header.payload != GenresText ==> r.tags == f.tags
    ensures |r.states| == 0 <==> header.payload == StateText || |f.states| == 0
    ensures header.payload != StateText ==> r.states == f.states
  {
    Filter(
      f.sortOrder,
      if header.payload == GenresText then [] else f.tags,
      None,
      if header.payload == StateText then [] else f.states)
  }

  /** `setTags` (and `applyFilter`): the tag selection is replaced wholesale. */
  function SetTags(f: Filter, tags: seq<Tag>): (r: Filter)
    ensures r.tags == tags
    ensures r.sortOrder == f.sortOrder && r.locale == f.locale && r.states == f.states
    ensures f.Valid() && Distinct(tags) ==> r.Valid()
  {
    f.(tags := tags)
  }

  /** `reset`: everything but the sort order is cleared. */
  function Reset(f: Filter): (r: Filter)
    ensures r.sortOrder == f.sortOrder
    ensures |r.tags| == 0 && r.locale == None && |r.states| == 0
    ensures r.Valid()
  {
    Filter(f.sortOrder, [], None, [])
  }

  // ---------------------------------------------------------------------------
  // Properties relating the intents
  // ---------------------------------------------------------------------------

  /** The list shows a tag as checked exactly when it is selected. */
  function TagItemFor(f: Filter, t: Tag, isMultiple: bool): (item: TagItem)
    ensures item.tag == t && item.isMultiple == isMultiple
    ensures item.isChecked <==> t in f.tags
  {
    TagItem(t, isMultiple, t in f.tags)
  }

  /** In multi-tag mode a click on a freshly rendered item flips membership, and a second click undoes it. */
  lemma MultiTagClickTwiceRestores(f: Filter, t: Tag)
    ensures var once := OnTagItemClick(f, TagItemFor(f, t, true), false);
            && (t in once.tags <==> t !in f.tags)
            && var twice := OnTagItemClick(once, TagItemFor(once, t, true), false);
               SameElements(twice.tags, f.tags) && twice.sortOrder == f.sortOrder
               && twice.locale == f.locale && twice.states == f.states
  {
    var once := OnTagItemClick(f, TagItemFor(f, t, true), false);
    var twice := OnTagItemClick(once, TagItemFor(once, t, true), false);
    forall x | x in twice.tags ensures x in f.tags {
      if x != t { assert x in once.tags; }
    }
    forall x | x in f.tags ensures x in twice.tags {
      if x != t { assert x in once.tags; }
    }
  }

  /** Every tag item the panel lists, in either mode, is the item `TagItemFor` builds. */
  lemma ListedTagItemIsTagItemFor(le: (string, string) -> bool, repo: Repository, w: TagsWrapper,
                                  f: Filter, query: string, it: ListItem)
    requires IsTotalPreorder(le)
    requires it in BuildFilterList(le, repo, w, f, query) && it.TagEntry?
    ensures it.tag == TagItemFor(f, it.tag.tag, repo.isMultipleTagsSupported)
  {
  }

  /**
   * In multi-tag mode, clicking a tag item of the panel flips the tag's membership,
   * and clicking the same tag in the panel built from the new filter restores the selection.
   */
  lemma ListedTagClickTwiceRestores(le: (string, string) -> bool, repo: Repository, w: TagsWrapper,
                                    f: Filter, query: string, first: ListItem, second: ListItem)
    requires IsTotalPreorder(le) && repo.isMultipleTagsSupported
    requires first in BuildFilterList(le, repo, w, f, query) && first.TagEntry?
    requires second in BuildFilterList(le, repo, w, OnTagItemClick(f, first.tag, false), query)
    requires second.TagEntry? && second.tag.tag == first.tag.tag
    ensures var once := OnTagItemClick(f, first.tag, false);
      && (first.tag.tag in once.tags <==> first.tag.tag !in f.tags)
      && SameElements(OnTagItemClick(once, second.tag, false).tags, f.tags)
  {
    var t := first.tag.tag;
    ListedTagItemIsTagItemFor(le, repo, w, f, query, first);
    ListedTagItemIsTagItemFor(le, repo, w, OnTagItemClick(f, first.tag, false), query, second);
    MultiTagClickTwiceRestores(f, t);
  }

  /** Clicking a state item twice, re-rendered in between, restores the state selection. */
  lemma StateClickTwiceRestores(f: Filter, s: MangaState)
    ensures var once := OnStateItemClick(f, StateItem(s, s in f.states));
            var twice := OnStateItemClick(once, StateItem(s, s in once.states));
            SameElements(twice.states, f.states) && twice.tags == f.tags
  {
    var once := OnStateItemClick(f, StateItem(s, s in f.states));
    var twice := OnStateItemClick(once, StateItem(s, s in once.states));
    forall x | x in twice.states ensures x in f.states {
      if x != s { assert x in once.states; }
    }
    forall x | x in f.states ensures x in twice.states {
      if x != s { assert x in once.states; }
    }
  }

  /** A single-tag click on a list item (not a chip) always selects exactly that tag. */
  lemma SingleTagListClickSelects(f: Filter, item: TagItem)
    requires !item.isMultiple
    ensures OnTagItemClick(f, item, false).tags == [item.tag]
  {
  }

  /** Setting the tags twice keeps only the second, and setting the current tags changes nothing. */
  lemma SetTagsOverwrites(f: Filter, a: seq<Tag>, b: seq<Tag>)
    ensures SetTags(SetTags(f, a), b) == SetTags(f, b)
    ensures SetTags(f, f.tags) == f
    ensures Reset(SetTags(f, a)) == Reset(f)
  {
  }

  /** Resetting twice is resetting once. */
  lemma ResetIdempotent(f: Filter)
    ensures Reset(Reset(f)) == Reset(f)
  {
  }

  /** Resetting the genres header and then the state header is a full reset. */
  lemma HeaderResetsComposeToReset(f: Filter)
    ensures OnListHeaderClick(
              OnListHeaderClick(f, ListHeader(GenresText, ResetText, GenresText)),
              ListHeader(StateText, ResetText, StateText)) == Reset(f)
  {
  }
}
