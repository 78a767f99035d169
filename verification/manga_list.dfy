/**
 * The manga list screen: grid span sizes, the selection and its bulk actions,
 * the swipe-to-refresh switch, and where clicks lead.
 */
module MangaList {
  import opened Wrappers
  import opened Tags

  /** A manga, identified by its id. */
  datatype Manga = Manga(id: int, title: string)

  /** `ListItemType`: the view types the list adapter produces. */
  datatype ItemType = MangaList | MangaListDetailed | MangaGrid | Header | Footer | StateLoading | StateError | StateEmpty

  /** An adapter item: a manga card (a `MangaItemModel`) or any other list model. */
  datatype ListModel = MangaItem(manga: Manga, viewType: ItemType) | OtherItem(viewType: ItemType)

  // ---------------------------------------------------------------------------
  // SpanSizeLookup.getSpanSize
  // ---------------------------------------------------------------------------

  /**
   * `getSpanSize`: `gridSpanCount` is the span count when the layout manager
   * is a grid, `viewType` the adapter's type for the position (absent without
   * an adapter). A grid card takes one cell, anything else the whole row.
   */
  function SpanSize(gridSpanCount: Option<nat>, viewType: Option<ItemType>): (r: nat)
    ensures gridSpanCount.None? ==> r == 1
    ensures gridSpanCount.Some? && viewType == Some(MangaGrid) ==> r == 1
    ensures gridSpanCount.Some? && viewType != Some(MangaGrid) ==> r == gridSpanCount.value
  {
    match gridSpanCount
    case None => 1
    case Some(total) => if viewType == Some(MangaGrid) then 1 else total
  }

  /** In a grid of at least one column an item never spans more than a row, nor less than a cell. */
  lemma SpanSizeWithinRow(total: nat, viewType: Option<ItemType>)
    requires total >= 1
    ensures 1 <= SpanSize(Some(total), viewType) <= total
    ensures SpanSize(Some(total), viewType) == total <==> viewType != Some(MangaGrid) || total == 1
  {
  }

  // ---------------------------------------------------------------------------
  // collectSelectedItems
  // ---------------------------------------------------------------------------

  /** The manga of the adapter's manga items whose id is checked. */
  function SelectedManga(checkedIds: set<int>, items: seq<ListModel>): set<Manga> {
    set it | it in items && it.MangaItem? && it.manga.id in checkedIds :: it.manga
  }

  /**
   * `collectSelectedItems`: without a selection controller or an adapter
   * nothing is selected.
   */
  method CollectSelectedItems(checkedIds: Option<set<int>>, items: Option<seq<ListModel>>) returns (r: set<Manga>)
    ensures checkedIds.None? || items.None? ==> r == {}
    ensures checkedIds.Some? && items.Some? ==>
      forall m :: m in r <==>
        m.id in checkedIds.value && exists it | it in items.value :: it.MangaItem? && it.manga == m
    ensures checkedIds.Some? && items.Some? ==> r == SelectedManga(checkedIds.value, items.value)
  {
    if checkedIds.None? || items.None? {
      return {};
    }
    var checked := checkedIds.value;
    var list := items.value;
    r := {};
    var i := 0;
    while i < |list|
      invariant 0 <= i <= |list|
      invariant r == SelectedManga(checked, list[..i])
    {
      var item := list[i];
      assert list[..i + 1] == list[..i] + [item];
      if item.MangaItem? && item.manga.id in checked {
        r := r + {item.manga};
      }
      i := i + 1;
    }
    assert list[..i] == list;
  }

  // ---------------------------------------------------------------------------
  // onActionItemClicked
  // ---------------------------------------------------------------------------

  /** The ids of the adapter's manga items: `mapNotNull { (it as? MangaItemModel)?.id }`. */
  function MangaIds(items: seq<ListModel>): (ids: set<int>)
    ensures forall id :: id in ids <==> exists it | it in items :: it.MangaItem? && it.manga.id == id
  {
    set it | it in items && it.MangaItem? :: it.manga.id
  }

  /** The menu entries of the manga list action mode; `Other` is any other id. */
  datatype MenuAction = SelectAll | Share | Favourite | Save | Other(itemId: int)

  /** What a menu click hands over, and to whom. */
  datatype Command = NoCommand | ShareLinks(manga: set<Manga>) | ShowFavouriteSheet(manga: set<Manga>) | Download(manga: set<Manga>)

  /**
   * Handled flag, command, whether the mode ends, and the checked ids as this
   * handler leaves them. What the selection controller does when the mode
   * finishes is not modelled.
   */
  datatype ActionResult = ActionResult(handled: bool, command: Command, finishMode: bool, checkedIds: Option<set<int>>)

  /** `onActionItemClicked` with the controller's checked ids and the adapter's items. */
  function OnActionItemClicked(action: MenuAction, checkedIds: Option<set<int>>, items: Option<seq<ListModel>>): (r: ActionResult)
    ensures action == SelectAll && items.None? ==> !r.handled && r.checkedIds == checkedIds
    ensures action == SelectAll && items.Some? ==> r.handled && !r.finishMode && r.command == NoCommand
    ensures action == SelectAll && items.Some? && checkedIds.Some? ==>
      r.checkedIds == Some(checkedIds.value + MangaIds(items.value))
    ensures action in {Share, Favourite, Save} ==>
      && r.handled && r.finishMode && r.checkedIds == checkedIds
      && r.command != NoCommand
      && forall m :: m in r.command.manga <==>
           checkedIds.Some? && items.Some? && m in SelectedManga(checkedIds.value, items.value)
    ensures action == Share <==> r.command.ShareLinks?
    ensures action == Favourite <==> r.command.ShowFavouriteSheet?
    ensures action == Save <==> r.command.Download?
    ensures action.Other? ==> !r.handled && r.command == NoCommand && r.checkedIds == checkedIds
  {
    var selected := if checkedIds.Some? && items.Some? then SelectedManga(checkedIds.value, items.value) else {};
    match action
    case SelectAll =>
      if items.None? then ActionResult(false, NoCommand, false, checkedIds)
      else
        var ids := MangaIds(items.value);
        ActionResult(true, NoCommand, false, if checkedIds.Some? then Some(checkedIds.value + ids) else None)
    case Share => ActionResult(true, ShareLinks(selected), true, checkedIds)
    case Favourite => ActionResult(true, ShowFavouriteSheet(selected), true, checkedIds)
    case Save => ActionResult(true, Download(selected), true, checkedIds)
    case Other(_) => ActionResult(false, NoCommand, false, checkedIds)
  }

  /** After select-all, the collected selection is every manga card of the adapter. */
  lemma SelectAllCollectsEveryManga(checkedIds: set<int>, items: seq<ListModel>)
    ensures var after := OnActionItemClicked(SelectAll, Some(checkedIds), Some(items)).checkedIds;
      && after.Some?
      && SelectedManga(after.value, items) == set it | it in items && it.MangaItem? :: it.manga
  {
    var after := OnActionItemClicked(SelectAll, Some(checkedIds), Some(items)).checkedIds.value;
    forall m | m in (set it | it in items && it.MangaItem? :: it.manga) ensures m in SelectedManga(after, items) {
      var it :| it in items && it.MangaItem? && it.manga == m;
      assert m.id in MangaIds(items);
    }
  }

  // ---------------------------------------------------------------------------
  // Swipe to refresh
  // ---------------------------------------------------------------------------

  /** The swipe-refresh layout's two switches. */
  datatype SwipeRefresh = SwipeRefresh(isEnabled: bool, isRefreshing: bool)

  /** The layout as the view is created: enabled as the fragment allows, not refreshing. */
  function InitialSwipe(allowed: bool): SwipeRefresh {
    SwipeRefresh(allowed, false)
  }

  /**
   * `onLoadingStateChanged`: enabled while a refresh runs, or when swiping is
   * allowed and nothing loads; the refresh indicator stops once loading ends.
   */
  function OnLoadingStateChanged(s: SwipeRefresh, allowed: bool, isLoading: bool): (r: SwipeRefresh)
    ensures r.isEnabled <==> s.isRefreshing || (allowed && !isLoading)
    ensures !isLoading ==> !r.isRefreshing
    ensures isLoading ==> r.isRefreshing == s.isRefreshing
  {
    SwipeRefresh(s.isRefreshing || (allowed && !isLoading), if isLoading then s.isRefreshing else false)
  }

  /** `onFastScrollStart`: swiping is switched off while the fast scroller is dragged. */
  function OnFastScrollStart(s: SwipeRefresh): (r: SwipeRefresh)
    ensures !r.isEnabled && r.isRefreshing == s.isRefreshing
  {
    s.(isEnabled := false)
  }

  /** `onFastScrollStop`: swiping is restored to what the fragment allows. */
  function OnFastScrollStop(s: SwipeRefresh, allowed: bool): (r: SwipeRefresh)
    ensures r.isEnabled == allowed && r.isRefreshing == s.isRefreshing
  {
    s.(isEnabled := allowed)
  }

  /** `onRefresh`: the user's swipe, delivered only while the layout is enabled. */
  function OnRefresh(s: SwipeRefresh): (r: SwipeRefresh)
    ensures s.isEnabled ==> r.isRefreshing && r.isEnabled
    ensures !s.isEnabled ==> r == s
  {
    if s.isEnabled then s.(isRefreshing := true) else s
  }

  /** The events that move the layout's switches. */
  datatype SwipeEvent = LoadingChanged(isLoading: bool) | FastScrollStarted | FastScrollStopped | Swiped

  function Step(s: SwipeRefresh, allowed: bool, e: SwipeEvent): SwipeRefresh {
    match e
    case LoadingChanged(isLoading) => OnLoadingStateChanged(s, allowed, isLoading)
    case FastScrollStarted => OnFastScrollStart(s)
    case FastScrollStopped => OnFastScrollStop(s, allowed)
    case Swiped => OnRefresh(s)
  }

  /** The layout after a sequence of events. */
  function Run(s: SwipeRefresh, allowed: bool, events: seq<SwipeEvent>): SwipeRefresh
    decreases |events|
  {
    if |events| == 0 then s else Run(Step(s, allowed, events[0]), allowed, events[1..])
  }

  /**
   * A fragment that disallows swiping never shows a refresh and never enables
   * the layout: from the layout as created, every event leaves it as created.
   */
  lemma {:induction false} DisallowedNeverRefreshes(s: SwipeRefresh, events: seq<SwipeEvent>)
    requires s == InitialSwipe(false)
    ensures Run(s, false, events) == InitialSwipe(false)
    decreases |events|
  {
    if |events| > 0 {
      DisallowedNeverRefreshes(Step(s, false, events[0]), events[1..]);
    }
  }

  /** After loading ends and the fast scroller is released, the layout is back as it was created. */
  lemma {:induction false} SettlesWhenIdle(s: SwipeRefresh, allowed: bool, events: seq<SwipeEvent>)
    ensures var r := Run(s, allowed, events + [LoadingChanged(false), FastScrollStopped]);
      r == InitialSwipe(allowed)
    decreases |events|
  {
    if |events| > 0 {
      assert (events + [LoadingChanged(false), FastScrollStopped])[1..] == events[1..] + [LoadingChanged(false), FastScrollStopped];
      SettlesWhenIdle(Step(s, allowed, events[0]), allowed, events[1..]);
    } else {
      var tail := [LoadingChanged(false), FastScrollStopped];
      assert events + tail == tail;
      var s1 := OnLoadingStateChanged(s, allowed, false);
      assert Run(s, allowed, tail) == Run(s1, allowed, [FastScrollStopped]) by { assert tail[1..] == [FastScrollStopped]; }
      assert Run(s1, allowed, [FastScrollStopped]) == Run(OnFastScrollStop(s1, allowed), allowed, []);
    }
  }

  /**
   * `onLoadingStateChanged` does not look at the fast scroller: a load that ends
   * while the scroller is dragged re-enables the layout the drag disabled, so a
   * swipe during the drag starts a refresh.
   */
  lemma LoadEndDuringDragReenables(s: SwipeRefresh, allowed: bool)
    ensures Run(s, allowed, [FastScrollStarted]).isEnabled == false
    ensures Run(s, allowed, [FastScrollStarted, LoadingChanged(false)]) == SwipeRefresh(s.isRefreshing || allowed, false)
    ensures allowed ==> Run(s, allowed, [FastScrollStarted, LoadingChanged(false), Swiped]).isRefreshing
  {
  }

  // ---------------------------------------------------------------------------
  // Click routing
  // ---------------------------------------------------------------------------

  /** The three kinds of click a manga card reports. */
  datatype Click = ItemClick(manga: Manga) | ReadClick(manga: Manga) | TagClick(manga: Manga, tag: Tag)

  /** Where a click leads. */
  datatype Navigation =
    | SelectionToggled
    | PreviewShown(manga: Manga)
    | DetailsOpened(manga: Manga)
    | ReaderOpened(manga: Manga)
    | TagListOpened(tags: seq<Tag>)
    | Nowhere
    /** `startActivity` on a fragment that is not attached throws `IllegalStateException`. */
    | NotAttachedError

  /** The click moves the user to another screen or pane. */
  predicate Navigates(n: Navigation) {
    n.PreviewShown? || n.DetailsOpened? || n.ReaderOpened? || n.TagListOpened?
  }

  /**
   * `onItemClick`, `onReadClick` and `onTagClick`. `consumed` is the
   * selection controller's answer (absent without a controller);
   * `previewShown` the host activity's answer to `showPreview` (absent when
   * the host is not a manga list activity); `hasContext` whether the
   * fragment is still attached, so that `context` is not null and
   * `startActivity` may be called. The item and tag clicks return early
   * without a context; the read click takes the card view's context and
   * calls `startActivity` regardless, which throws when detached.
   */
  function OnClick(click: Click, consumed: Option<bool>, previewShown: Option<bool>, hasContext: bool): (r: Navigation)
    ensures consumed == Some(true) <==> r == SelectionToggled
    ensures consumed == Some(true) ==> !Navigates(r)
    ensures r.PreviewShown? <==> click.ItemClick? && consumed != Some(true) && previewShown == Some(true)
    ensures r.DetailsOpened? <==>
      click.ItemClick? && consumed != Some(true) && previewShown != Some(true) && hasContext
    ensures r.ReaderOpened? <==> click.ReadClick? && consumed != Some(true) && hasContext
    ensures r == NotAttachedError <==> click.ReadClick? && consumed != Some(true) && !hasContext
    ensures r.TagListOpened? <==> click.TagClick? && consumed != Some(true) && hasContext
    ensures r.TagListOpened? ==> r.tags == [click.tag]
    ensures Navigates(r) && !r.TagListOpened? ==> r.manga == click.manga
  {
    if consumed == Some(true) then SelectionToggled
    else
      match click
      case ItemClick(m) =>
        if previewShown == Some(true) then PreviewShown(m)
        else if hasContext then DetailsOpened(m)
        else Nowhere
      case ReadClick(m) => if hasContext then ReaderOpened(m) else NotAttachedError
      case TagClick(_, t) => if hasContext then TagListOpened([t]) else Nowhere
  }
}
