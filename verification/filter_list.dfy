/**
 * `buildFilterList`: the filter panel's items, derived from the known tags,
 * the filter record and the search query.
 */
module FilterList {
  import opened Tags
  import opened LinkedSets
  import opened FilterModel
  import opened Wrappers

  // ---------------------------------------------------------------------------
  // sortedByOrdinal
  // ---------------------------------------------------------------------------

  lemma {:induction false} MinOrderExists(s: set<SortOrder>)
    requires s != {}
    ensures exists m :: m in s && forall o :: o in s ==> m.ordinal <= o.ordinal
    decreases s
  {
    var x :| x in s;
    if s == {x} {
      assert forall o | o in s :: o == x;
    } else {
      var rest := s - {x};
      MinOrderExists(rest);
      var m :| m in rest && forall o :: o in rest ==> m.ordinal <= o.ordinal;
      var best := if x.ordinal < m.ordinal then x else m;
      forall o | o in s ensures best.ordinal <= o.ordinal {
        if o != x {
          assert o in rest;
        }
      }
      assert best in s;
    }
  }

  /** The sort order with the least ordinal. */
  function MinOrder(s: set<SortOrder>): (m: SortOrder)
    requires s != {}
    ensures m in s && forall o :: o in s ==> m.ordinal <= o.ordinal
  {
    MinOrderExists(s);
    var m :| m in s && forall o :: o in s ==> m.ordinal <= o.ordinal; m
  }

  /** `sortedByOrdinal()`: every order once, in ascending ordinal. */
  function SortedByOrdinal(s: set<SortOrder>): (r: seq<SortOrder>)
    ensures |r| == |s|
    ensures forall o :: o in r <==> o in s
    ensures forall i, j :: 0 <= i < j < |r| ==> r[i].ordinal < r[j].ordinal
    decreases s
  {
    if s == {} then []
    else
      var m := MinOrder(s);
      var rest := SortedByOrdinal(s - {m});
      assert forall o :: o in rest ==> m.ordinal < o.ordinal;
      [m] + rest
  }

  // ---------------------------------------------------------------------------
  // Sections of the panel
  // ---------------------------------------------------------------------------

  /** The list has a header carrying `payload`. */
  predicate HasHeader(l: seq<ListItem>, payload: StringRes) {
    exists it | it in l :: it.Header? && it.header.payload == payload
  }

  /** The list holds no error item and no loading footer. */
  predicate NoTrailer(l: seq<ListItem>) {
    forall it | it in l :: !it.ErrorEntry? && !it.LoadingFooter?
  }

  /** The tag items of a list appear in strictly ascending key order. */
  predicate TagItemsSorted(le: (string, string) -> bool, l: seq<ListItem>) {
    forall i, j | 0 <= i < j < |l| && l[i].TagEntry? && l[j].TagEntry? :: Before(le, l[i].tag.tag, l[j].tag.tag)
  }

  /** Header button: "reset" exactly when something is selected. */
  function ResetButton(selectedCount: nat): (b: StringRes)
    ensures b == ResetText <==> selectedCount > 0
    ensures b == NoText <==> selectedCount == 0
  {
    if selectedCount == 0 then NoText else ResetText
  }

  /** Sort header and one item per supported order, in ordinal order, the current one selected. */
  function SortSection(repo: Repository, f: Filter): (r: seq<ListItem>)
    ensures |repo.sortOrders| == 0 ==> r == []
    ensures |repo.sortOrders| > 0 ==>
      |r| == |repo.sortOrders| + 1 && r[0] == Header(ListHeader(SortOrderText, NoText, NoText))
    ensures forall i | 1 <= i < |r| :: r[i].SortEntry?
    ensures forall i | 1 <= i < |r| :: r[i].sort.isSelected <==> r[i].sort.order == f.sortOrder
    ensures forall i, j | 1 <= i < j < |r| :: r[i].sort.order.ordinal < r[j].sort.order.ordinal
    ensures forall o :: o in repo.sortOrders <==> SortEntry(SortItem(o, o == f.sortOrder)) in r
    ensures forall it | it in r :: it.SortEntry? ==>
      it.sort.order in repo.sortOrders && (it.sort.isSelected <==> it.sort.order == f.sortOrder)
    ensures forall it | it in r :: !it.StateEntry? && !it.TagEntry?
    ensures forall it | it in r :: it.Header? ==> it.header.payload == NoText
    ensures NoTrailer(r)
  {
    if repo.sortOrders == {} then []
    else
      var orders := SortedByOrdinal(repo.sortOrders);
      var r := [Header(ListHeader(SortOrderText, NoText, NoText))] + SortRun(orders, f.sortOrder);
      SortSectionFacts(repo.sortOrders, orders, f.sortOrder, r);
      r
  }

  /** One sort item per order, the one equal to `selected` marked. */
  function SortRun(orders: seq<SortOrder>, selected: SortOrder): (r: seq<ListItem>)
    ensures |r| == |orders|
    ensures forall k | 0 <= k < |orders| :: r[k] == SortEntry(SortItem(orders[k], orders[k] == selected))
  {
    seq(|orders|, k requires 0 <= k < |orders| => SortEntry(SortItem(orders[k], orders[k] == selected)))
  }

  lemma SortSectionFacts(s: set<SortOrder>, orders: seq<SortOrder>, selected: SortOrder, r: seq<ListItem>)
    requires |orders| == |s| > 0
    requires forall o :: o in orders <==> o in s
    requires forall i, j :: 0 <= i < j < |orders| ==> orders[i].ordinal < orders[j].ordinal
    requires r == [Header(ListHeader(SortOrderText, NoText, NoText))] + SortRun(orders, selected)
    ensures |r| == |s| + 1 && r[0] == Header(ListHeader(SortOrderText, NoText, NoText))
    ensures forall i | 1 <= i < |r| :: r[i].SortEntry?
    ensures forall i | 1 <= i < |r| :: r[i].sort.isSelected <==> r[i].sort.order == selected
    ensures forall i, j | 1 <= i < j < |r| :: r[i].sort.order.ordinal < r[j].sort.order.ordinal
    ensures forall o :: o in s <==> SortEntry(SortItem(o, o == selected)) in r
    ensures forall it | it in r :: it.SortEntry? ==>
      it.sort.order in s && (it.sort.isSelected <==> it.sort.order == selected)
    ensures forall it | it in r :: !it.StateEntry? && !it.TagEntry?
    ensures forall it | it in r :: it.Header? ==> it.header.payload == NoText
    ensures NoTrailer(r)
  {
    assert forall i | 1 <= i < |r| :: r[i] == SortEntry(SortItem(orders[i - 1], orders[i - 1] == selected));
    forall o | o in s ensures SortEntry(SortItem(o, o == selected)) in r {
      var k :| 0 <= k < |orders| && orders[k] == o;
      assert r[k + 1] == SortEntry(SortItem(o, o == selected));
    }
  }

  /** State header and one item per state the source offers, in the source's order. */
  function StateSection(repo: Repository, f: Filter): (r: seq<ListItem>)
    ensures |repo.states| == 0 ==> r == []
    ensures |repo.states| > 0 ==> |r| == |repo.states| + 1
    ensures |repo.states| > 0 ==> r[0].Header? && r[0].header.payload == StateText
    ensures forall k | 0 <= k < |repo.states| ::
      r[k + 1] == StateEntry(StateItem(repo.states[k], repo.states[k] in f.states))
    ensures forall it | it in r :: it.StateEntry? ==>
      it.state.state in repo.states && (it.state.isChecked <==> it.state.state in f.states)
    ensures forall s | s in repo.states :: StateEntry(StateItem(s, s in f.states)) in r
    ensures forall it | it in r :: !it.SortEntry? && !it.TagEntry?
    ensures HasHeader(r, StateText) <==> |repo.states| > 0
    ensures forall it | it in r :: it.Header? ==>
      it.header.payload == StateText && (it.header.button == ResetText <==> |f.states| > 0)
    ensures NoTrailer(r)
  {
    if |repo.states| == 0 then []
    else
      var head := Header(ListHeader(StateText, ResetButton(|f.states|), StateText));
      var items := seq(|repo.states|, k requires 0 <= k < |repo.states| =>
        StateEntry(StateItem(repo.states[k], repo.states[k] in f.states)));
      var r := [head] + items;
      assert r[0] == head;
      forall s | s in repo.states ensures StateEntry(StateItem(s, s in f.states)) in r {
        var k :| 0 <= k < |repo.states| && repo.states[k] == s;
        assert r[k + 1] in r;
      }
      r
  }

  /** One tag item per tag, checked when the tag is selected. */
  function TagEntries(tags: seq<Tag>, f: Filter, isMultiple: bool): (r: seq<ListItem>)
    ensures |r| == |tags|
    ensures forall k | 0 <= k < |tags| :: r[k] == TagEntry(TagItem(tags[k], isMultiple, tags[k] in f.tags))
    ensures forall it | it in r :: it.TagEntry? && it.tag.tag in tags
  {
    seq(|tags|, k requires 0 <= k < |tags| => TagEntry(TagItem(tags[k], isMultiple, tags[k] in f.tags)))
  }

  /** Genres header and the tag items, shown while loading, after an error, or when tags exist. */
  function GenresSection(le: (string, string) -> bool, w: TagsWrapper, tags: seq<Tag>, f: Filter, isMultiple: bool): (r: seq<ListItem>)
    ensures |r| > 0 <==> w.isLoading || w.isError || |tags| > 0
    ensures |r| > 0 ==> |r| == |tags| + 1 && r[0].Header? && r[0].header.payload == GenresText
    ensures forall it | it in r :: it.TagEntry? ==>
      it.tag.tag in tags && it.tag.isMultiple == isMultiple && (it.tag.isChecked <==> it.tag.tag in f.tags)
    ensures forall t | t in tags :: TagEntry(TagItem(t, isMultiple, t in f.tags)) in r
    ensures StrictlySorted(le, tags) ==> TagItemsSorted(le, r)
    ensures forall it | it in r :: !it.SortEntry? && !it.StateEntry?
    ensures HasHeader(r, GenresText) <==> w.isLoading || w.isError || |tags| > 0
    ensures forall it | it in r :: it.Header? ==>
      it.header.payload == GenresText && (it.header.button == ResetText <==> |f.tags| > 0)
    ensures NoTrailer(r)
  {
    if w.isLoading || w.isError || |tags| > 0 then
      var head := Header(ListHeader(GenresText, ResetButton(|f.tags|), GenresText));
      var e := TagEntries(tags, f, isMultiple);
      var r := [head] + e;
      GenresFacts(le, tags, f, isMultiple, head, e, r);
      r
    else
      []
  }

  lemma GenresFacts(le: (string, string) -> bool, tags: seq<Tag>, f: Filter, isMultiple: bool,
                    head: ListItem, e: seq<ListItem>, r: seq<ListItem>)
    requires head == Header(ListHeader(GenresText, ResetButton(|f.tags|), GenresText))
    requires |e| == |tags|
    requires forall k | 0 <= k < |tags| :: e[k] == TagEntry(TagItem(tags[k], isMultiple, tags[k] in f.tags))
    requires r == [head] + e
    ensures |r| == |tags| + 1 && r[0] == head
    ensures forall it | it in r :: it.TagEntry? ==>
      it.tag.tag in tags && it.tag.isMultiple == isMultiple && (it.tag.isChecked <==> it.tag.tag in f.tags)
    ensures forall t | t in tags :: TagEntry(TagItem(t, isMultiple, t in f.tags)) in r
    ensures StrictlySorted(le, tags) ==> TagItemsSorted(le, r)
    ensures forall it | it in r :: !it.SortEntry? && !it.StateEntry?
    ensures HasHeader(r, GenresText)
    ensures forall it | it in r :: it.Header? ==>
      it.header.payload == GenresText && (it.header.button == ResetText <==> |f.tags| > 0)
    ensures NoTrailer(r)
  {
    assert r[0] == head;
    forall t | t in tags ensures TagEntry(TagItem(t, isMultiple, t in f.tags)) in r {
      var k :| 0 <= k < |tags| && tags[k] == t;
      assert r[k + 1] in r;
    }
    if StrictlySorted(le, tags) {
      forall i, j | 0 <= i < j < |r| && r[i].TagEntry? && r[j].TagEntry?
        ensures Before(le, r[i].tag.tag, r[j].tag.tag)
      {
        assert r[i] == TagEntry(TagItem(tags[i - 1], isMultiple, tags[i - 1] in f.tags));
        assert r[j] == TagEntry(TagItem(tags[j - 1], isMultiple, tags[j - 1] in f.tags));
      }
    }
  }

  /** The trailing item: the load error, else the loading footer, else nothing. */
  function Trailer(w: TagsWrapper): (r: seq<ListItem>)
    ensures |r| <= 1
    ensures ErrorEntry(FilterLoadError) in r <==> w.isError
    ensures LoadingFooter in r <==> w.isLoading && !w.isError
    ensures forall it | it in r :: it == ErrorEntry(FilterLoadError) || it == LoadingFooter
  {
    if w.isError then [ErrorEntry(FilterLoadError)]
    else if w.isLoading then [LoadingFooter]
    else []
  }

  /** The tags whose title contains the query, ignoring case, in order. */
  function Matching(tags: seq<Tag>, query: string): (r: seq<Tag>)
    ensures forall t :: t in r <==> t in tags && ContainsIgnoreCase(t.title, query)
    ensures |r| <= |tags|
    decreases |tags|
  {
    if |tags| == 0 then []
    else
      (if ContainsIgnoreCase(tags[0].title, query) then [tags[0]] else [])
      + Matching(tags[1..], query)
  }

  /** Filtering keeps a sorted sequence sorted. */
  lemma {:induction false} MatchingKeepsOrder(le: (string, string) -> bool, tags: seq<Tag>, query: string)
    requires StrictlySorted(le, tags)
    ensures StrictlySorted(le, Matching(tags, query))
    decreases |tags|
  {
    if |tags| > 0 {
      MatchingKeepsOrder(le, tags[1..], query);
      var rest := Matching(tags[1..], query);
      forall y | y in rest ensures Before(le, tags[0], y) {
        var k :| 0 <= k < |tags[1..]| && tags[1..][k] == y;
        assert tags[k + 1] == y;
      }
    }
  }

  // ---------------------------------------------------------------------------
  // buildFilterList
  // ---------------------------------------------------------------------------

  /** The tags the panel lists: the selected tags merged into the known ones. */
  function PanelTags(le: (string, string) -> bool, w: TagsWrapper, f: Filter): (tags: seq<Tag>)
    requires IsTotalPreorder(le)
    ensures StrictlySorted(le, tags)
    ensures forall t :: t in f.tags ==> HasSameKey(le, tags, t)
    ensures forall t :: t in w.tags ==> HasSameKey(le, tags, t)
    ensures forall t :: t in tags ==> t in f.tags || t in w.tags
  {
    MergeCovers(le, f.tags, w.tags);
    MergeTags(le, f.tags, w.tags)
  }

  /** Lists without tag items around a sorted run keep the tag items sorted. */
  lemma TagItemsSortedConcat(le: (string, string) -> bool, pre: seq<ListItem>, mid: seq<ListItem>, post: seq<ListItem>)
    requires forall it | it in pre :: !it.TagEntry?
    requires forall it | it in post :: !it.TagEntry?
    requires TagItemsSorted(le, mid)
    ensures TagItemsSorted(le, pre + mid + post)
  {
    var l := pre + mid + post;
    forall i, j | 0 <= i < j < |l| && l[i].TagEntry? && l[j].TagEntry?
      ensures Before(le, l[i].tag.tag, l[j].tag.tag)
    {
      assert l[i] == mid[i - |pre|] && l[j] == mid[j - |pre|];
    }
  }

  /** `buildFilterList` with an empty query: sort, state and genre sections, then the trailer. */
  function BrowsePanel(le: (string, string) -> bool, repo: Repository, w: TagsWrapper, f: Filter): (r: seq<ListItem>)
    requires IsTotalPreorder(le)
    // sort orders: one item per order, the current one selected
    ensures forall o | o in repo.sortOrders :: SortEntry(SortItem(o, o == f.sortOrder)) in r
    ensures forall it | it in r :: it.SortEntry? ==>
      it.sort.order in repo.sortOrders && (it.sort.isSelected <==> it.sort.order == f.sortOrder)
    // states: one item per state, checked when selected
    ensures forall s | s in repo.states :: StateEntry(StateItem(s, s in f.states)) in r
    ensures forall it | it in r :: it.StateEntry? ==>
      it.state.state in repo.states && (it.state.isChecked <==> it.state.state in f.states)
    // tags: the merged tags in key order, checked when selected
    ensures forall t | t in PanelTags(le, w, f) :: TagEntry(TagItem(t, repo.isMultipleTagsSupported, t in f.tags)) in r
    ensures forall it | it in r :: it.TagEntry? ==>
      && it.tag.tag in PanelTags(le, w, f)
      && it.tag.isMultiple == repo.isMultipleTagsSupported
      && (it.tag.isChecked <==> it.tag.tag in f.tags)
    ensures TagItemsSorted(le, r)
    // headers
    ensures HasHeader(r, GenresText) <==> w.isLoading || w.isError || |PanelTags(le, w, f)| > 0
    ensures HasHeader(r, StateText) <==> |repo.states| > 0
    ensures forall it | it in r :: it.Header? && it.header.payload == StateText ==>
      (it.header.button == ResetText <==> |f.states| > 0)
    ensures forall it | it in r :: it.Header? && it.header.payload == GenresText ==>
      (it.header.button == ResetText <==> |f.tags| > 0)
    // trailer
    ensures ErrorEntry(FilterLoadError) in r <==> w.isError
    ensures LoadingFooter in r <==> w.isLoading && !w.isError
    ensures w.isError ==> |r| > 0 && r[|r| - 1] == ErrorEntry(FilterLoadError)
    ensures !w.isError && w.isLoading ==> |r| > 0 && r[|r| - 1] == LoadingFooter
  {
    var tags := PanelTags(le, w, f);
    var a := SortSection(repo, f);
    var b := StateSection(repo, f);
    var c := GenresSection(le, w, tags, f, repo.isMultipleTagsSupported);
    var d := Trailer(w);
    BrowseItems(le, repo, f, tags, a, b, c, d);
    BrowseHeadersAndTrailer(w, tags, f, repo, a, b, c, d);
    a + b + c + d
  }

  /** The item facts of the browsing panel follow from those of its sections. */
  lemma BrowseItems(le: (string, string) -> bool, repo: Repository, f: Filter, tags: seq<Tag>,
                    a: seq<ListItem>, b: seq<ListItem>, c: seq<ListItem>, d: seq<ListItem>)
    requires forall o :: o in repo.sortOrders <==> SortEntry(SortItem(o, o == f.sortOrder)) in a
    requires forall it | it in a :: it.SortEntry? ==>
      it.sort.order in repo.sortOrders && (it.sort.isSelected <==> it.sort.order == f.sortOrder)
    requires forall it | it in a :: !it.StateEntry? && !it.TagEntry?
    requires forall it | it in b :: it.StateEntry? ==>
      it.state.state in repo.states && (it.state.isChecked <==> it.state.state in f.states)
    requires forall s | s in repo.states :: StateEntry(StateItem(s, s in f.states)) in b
    requires forall it | it in b :: !it.SortEntry? && !it.TagEntry?
    requires forall it | it in c :: it.TagEntry? ==>
      it.tag.tag in tags && it.tag.isMultiple == repo.isMultipleTagsSupported && (it.tag.isChecked <==> it.tag.tag in f.tags)
    requires forall t | t in tags :: TagEntry(TagItem(t, repo.isMultipleTagsSupported, t in f.tags)) in c
    requires TagItemsSorted(le, c)
    requires forall it | it in c :: !it.SortEntry? && !it.StateEntry?
    requires forall it | it in d :: it == ErrorEntry(FilterLoadError) || it == LoadingFooter
    ensures var r := a + b + c + d;
      && (forall o | o in repo.sortOrders :: SortEntry(SortItem(o, o == f.sortOrder)) in r)
      && (forall it | it in r :: it.SortEntry? ==>
            it.sort.order in repo.sortOrders && (it.sort.isSelected <==> it.sort.order == f.sortOrder))
      && (forall s | s in repo.states :: StateEntry(StateItem(s, s in f.states)) in r)
      && (forall it | it in r :: it.StateEntry? ==>
            it.state.state in repo.states && (it.state.isChecked <==> it.state.state in f.states))
      && (forall t | t in tags :: TagEntry(TagItem(t, repo.isMultipleTagsSupported, t in f.tags)) in r)
      && (forall it | it in r :: it.TagEntry? ==>
            && it.tag.tag in tags
            && it.tag.isMultiple == repo.isMultipleTagsSupported
            && (it.tag.isChecked <==> it.tag.tag in f.tags))
      && TagItemsSorted(le, r)
  {
    TagItemsSortedConcat(le, a + b, c, d);
  }

  /** The headers and the trailer of the browsing panel follow from those of its sections. */
  lemma BrowseHeadersAndTrailer(w: TagsWrapper, tags: seq<Tag>, f: Filter, repo: Repository,
                                a: seq<ListItem>, b: seq<ListItem>, c: seq<ListItem>, d: seq<ListItem>)
    requires forall it | it in a :: it.Header? ==> it.header.payload == NoText
    requires HasHeader(b, StateText) <==> |repo.states| > 0
    requires forall it | it in b :: it.Header? ==>
      it.header.payload == StateText && (it.header.button == ResetText <==> |f.states| > 0)
    requires HasHeader(c, GenresText) <==> w.isLoading || w.isError || |tags| > 0
    requires forall it | it in c :: it.Header? ==>
      it.header.payload == GenresText && (it.header.button == ResetText <==> |f.tags| > 0)
    requires NoTrailer(a) && NoTrailer(b) && NoTrailer(c)
    requires ErrorEntry(FilterLoadError) in d <==> w.isError
    requires LoadingFooter in d <==> w.isLoading && !w.isError
    requires |d| <= 1
    requires forall it | it in d :: it == ErrorEntry(FilterLoadError) || it == LoadingFooter
    ensures var r := a + b + c + d;
      && (HasHeader(r, GenresText) <==> w.isLoading || w.isError || |tags| > 0)
      && (HasHeader(r, StateText) <==> |repo.states| > 0)
      && (forall it | it in r :: it.Header? && it.header.payload == StateText ==>
            (it.header.button == ResetText <==> |f.states| > 0))
      && (forall it | it in r :: it.Header? && it.header.payload == GenresText ==>
            (it.header.button == ResetText <==> |f.tags| > 0))
      && (ErrorEntry(FilterLoadError) in r <==> w.isError)
      && (LoadingFooter in r <==> w.isLoading && !w.isError)
      && (w.isError ==> |r| > 0 && r[|r| - 1] == ErrorEntry(FilterLoadError))
      && (!w.isError && w.isLoading ==> |r| > 0 && r[|r| - 1] == LoadingFooter)
  {
    var r := a + b + c + d;
    assert HasHeader(r, GenresText) <==> HasHeader(c, GenresText);
    assert HasHeader(r, StateText) <==> HasHeader(b, StateText);
  }

  /** `buildFilterList` with a non-empty query: the matching tags, or "nothing found". */
  function SearchPanel(le: (string, string) -> bool, repo: Repository, w: TagsWrapper, f: Filter,
                       query: string): (r: seq<ListItem>)
    requires IsTotalPreorder(le)
    ensures |r| > 0
    ensures r == [ErrorEntry(NothingFound)] <==>
      forall t | t in PanelTags(le, w, f) :: !ContainsIgnoreCase(t.title, query)
    ensures r != [ErrorEntry(NothingFound)] ==> forall it | it in r :: it.TagEntry?
    ensures forall t | t in PanelTags(le, w, f) && ContainsIgnoreCase(t.title, query) ::
      TagEntry(TagItem(t, repo.isMultipleTagsSupported, t in f.tags)) in r
    ensures forall it | it in r :: it.TagEntry? ==>
      && it.tag.tag in PanelTags(le, w, f)
      && ContainsIgnoreCase(it.tag.tag.title, query)
      && it.tag.isMultiple == repo.isMultipleTagsSupported
      && (it.tag.isChecked <==> it.tag.tag in f.tags)
    ensures TagItemsSorted(le, r)
  {
    var tags := PanelTags(le, w, f);
    var matched := Matching(tags, query);
    MatchingKeepsOrder(le, tags, query);
    var items := TagEntries(matched, f, repo.isMultipleTagsSupported);
    var r := if |items| == 0 then [ErrorEntry(NothingFound)] else items;
    SearchFacts(le, tags, matched, items, f, repo.isMultipleTagsSupported, query, r);
    r
  }

  /** The facts of the search panel, from those of the matching tags and their items. */
  lemma SearchFacts(le: (string, string) -> bool, tags: seq<Tag>, matched: seq<Tag>, items: seq<ListItem>,
                    f: Filter, isMultiple: bool, query: string, r: seq<ListItem>)
    requires forall t :: t in matched <==> t in tags && ContainsIgnoreCase(t.title, query)
    requires StrictlySorted(le, matched)
    requires |items| == |matched|
    requires forall k | 0 <= k < |matched| :: items[k] == TagEntry(TagItem(matched[k], isMultiple, matched[k] in f.tags))
    requires r == if |items| == 0 then [ErrorEntry(NothingFound)] else items
    ensures |r| > 0
    ensures r == [ErrorEntry(NothingFound)] <==> forall t | t in tags :: !ContainsIgnoreCase(t.title, query)
    ensures r != [ErrorEntry(NothingFound)] ==> forall it | it in r :: it.TagEntry?
    ensures forall t | t in tags && ContainsIgnoreCase(t.title, query) ::
      TagEntry(TagItem(t, isMultiple, t in f.tags)) in r
    ensures forall it | it in r :: it.TagEntry? ==>
      && it.tag.tag in tags
      && ContainsIgnoreCase(it.tag.tag.title, query)
      && it.tag.isMultiple == isMultiple
      && (it.tag.isChecked <==> it.tag.tag in f.tags)
    ensures TagItemsSorted(le, r)
  {
    forall t | t in tags && ContainsIgnoreCase(t.title, query)
      ensures TagEntry(TagItem(t, isMultiple, t in f.tags)) in items
    {
      var k :| 0 <= k < |matched| && matched[k] == t;
      assert items[k] in items;
    }
    forall it | it in items ensures it.TagEntry? && it.tag.tag in matched && it.tag.isMultiple == isMultiple
      && (it.tag.isChecked <==> it.tag.tag in f.tags)
    {
      var k :| 0 <= k < |items| && items[k] == it;
    }
    forall i, j | 0 <= i < j < |items| ensures Before(le, items[i].tag.tag, items[j].tag.tag) {
      assert items[i].tag.tag == matched[i] && items[j].tag.tag == matched[j];
    }
    if |items| == 0 {
      assert forall t | t in tags :: !ContainsIgnoreCase(t.title, query);
    } else {
      assert matched[0] in matched;
      assert items != [ErrorEntry(NothingFound)] by { assert items[0].TagEntry?; }
    }
  }

  /** `buildFilterList(allTags, state, query)`. */
  function BuildFilterList(le: (string, string) -> bool, repo: Repository, w: TagsWrapper,
                           f: Filter, query: string): (r: seq<ListItem>)
    requires IsTotalPreorder(le)
    ensures forall it | it in r :: it.SortEntry? ==> (it.sort.isSelected <==> it.sort.order == f.sortOrder)
    ensures forall it | it in r :: it.StateEntry? ==> (it.state.isChecked <==> it.state.state in f.states)
    ensures forall it | it in r :: it.TagEntry? ==>
      && (it.tag.isChecked <==> it.tag.tag in f.tags)
      && it.tag.isMultiple == repo.isMultipleTagsSupported
      && (it.tag.tag in f.tags || it.tag.tag in w.tags)
    ensures TagItemsSorted(le, r)
    ensures |query| == 0 ==> (ErrorEntry(FilterLoadError) in r <==> w.isError)
    ensures |query| == 0 ==> !(ErrorEntry(FilterLoadError) in r && LoadingFooter in r)
    ensures |query| > 0 ==> |r| > 0 && forall it | it in r :: it.TagEntry? || it == ErrorEntry(NothingFound)
  {
    if |query| == 0 then BrowsePanel(le, repo, w, f)
    else SearchPanel(le, repo, w, f, query)
  }

  // ---------------------------------------------------------------------------
  // getTagsAsFlow
  // ---------------------------------------------------------------------------

  /**
   * The two values `getTagsAsFlow` emits: the locally stored tags while the
   * remote load runs, then the merged tags, or the local ones with the error
   * flag when the load failed (`remote` absent).
   */
  function TagsEmissions(le: (string, string) -> bool, local: seq<Tag>, remote: Option<seq<Tag>>): (r: seq<TagsWrapper>)
    requires IsTotalPreorder(le)
    ensures |r| == 2
    ensures r[0] == TagsWrapper(local, true, false)
    ensures !r[1].isLoading && (r[1].isError <==> remote.None?)
    ensures remote.None? ==> r[1].tags == local
    ensures remote.Some? ==>
      && StrictlySorted(le, r[1].tags)
      && (forall t | t in local :: HasSameKey(le, r[1].tags, t))
      && (forall t | t in remote.value :: HasSameKey(le, r[1].tags, t))
      && (forall t | t in r[1].tags :: t in local || t in remote.value)
      && (forall t, u | t in r[1].tags && u in local && SameKey(le, t, u) :: t in local)
  {
    match remote
    case None => [TagsWrapper(local, true, false), TagsWrapper(local, false, true)]
    case Some(tags) =>
      MergeCovers(le, tags, local);
      MergePrefersSecondary(le, tags, local);
      [TagsWrapper(local, true, false), TagsWrapper(MergeTags(le, tags, local), false, false)]
  }

  /** While the tags load, the browsing panel ends with the loading footer; after a failure, with the error. */
  lemma PanelTrailerFollowsLoad(le: (string, string) -> bool, repo: Repository, f: Filter,
                                local: seq<Tag>, remote: Option<seq<Tag>>)
    requires IsTotalPreorder(le)
    ensures var e := TagsEmissions(le, local, remote);
      && var first := BrowsePanel(le, repo, e[0], f);
         |first| > 0 && first[|first| - 1] == LoadingFooter && ErrorEntry(FilterLoadError) !in first
    ensures var e := TagsEmissions(le, local, remote);
      && var last := BrowsePanel(le, repo, e[1], f);
         LoadingFooter !in last && (ErrorEntry(FilterLoadError) in last <==> remote.None?)
  {
  }
}
