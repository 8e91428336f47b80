/** The full-page viewer (web-view.js): its search filter, the growing prefix of
    the filtered list that the card grid shows, the "load more" step of the
    infinite scroll, the pagination label and the statistics counts. */
module WebView {
  import opened Results
  import opened Seqs
  import opened Text
  import opened Favorites
  import opened PopupList

  /** The viewer's fields. `grid` is the sequence of cards in the grid element,
      one per record rendered. */
  datatype ViewState = ViewState(
    all: seq<Favorite>,
    categories: seq<string>,
    filtered: seq<Favorite>,
    currentPage: int,
    itemsPerPage: int,
    isLoading: bool,
    grid: seq<Favorite>)

  /** The page size the constructor sets (web-view.js:9). */
  const DefaultPageSize: int := 20

  /** Page numbers start at 1 and a page holds at least one record. */
  predicate Valid(v: ViewState) {
    v.currentPage >= 1 && v.itemsPerPage >= 1
  }

  /** The web view's search test: the popup's, plus the lower-cased URL. */
  predicate WebHit(f: Favorite, term: string) {
    PopupHit(f, term) || Contains(Lower(f.url), Lower(term))
  }

  /** filterFavorites' list: the category filter, then the search filter when the
      term is not empty. */
  function WebFilter(all: seq<Favorite>, term: string, category: string): (r: seq<Favorite>)
    ensures IsSubseq(r, all)
    ensures forall f :: f in r <==> f in all && InCategory(f, category) && (term == "" || WebHit(f, term))
    ensures forall f :: multiset(r)[f] == (if InCategory(f, category) && (term == "" || WebHit(f, term))
                                           then multiset(all)[f] else 0)
  {
    SubseqRefl(all);
    var byCategory := if category != "" then Filter((f: Favorite) => f.category == Some(category), all) else all;
    if term != "" then
      var r := Filter((f: Favorite) => WebHit(f, term), byCategory);
      SubseqTrans(r, byCategory, all);
      r
    else byCategory
  }

  /** With a category chosen, every record kept has exactly that category; with
      neither a category nor a term the whole list is kept. */
  lemma WebFilterCategory(all: seq<Favorite>, term: string, category: string)
    ensures category != "" ==> forall f :: f in WebFilter(all, term, category) ==> f.category == Some(category)
    ensures WebFilter(all, "", "") == all
  {
  }

  /** Whatever the popup's filter finds, the web view's finds too, in the same
      order among the others. */
  lemma {:induction false} PopupResultsAreWebResults(all: seq<Favorite>, term: string, category: string)
    ensures IsSubseq(PopupFilter(all, term, category), WebFilter(all, term, category))
  {
    SubseqRefl(all);
    var byCategory := if category != "" then Filter((f: Favorite) => f.category == Some(category), all) else all;
    if term != "" {
      FilterMonotone((f: Favorite) => WebHit(f, term), (f: Favorite) => PopupHit(f, term), byCategory);
    } else {
      SubseqRefl(byCategory);
    }
  }

  /** How many records the first `currentPage` pages hold: `min(page * size, n)`. */
  function PageEnd(v: ViewState): (k: nat)
    requires Valid(v)
    ensures k <= |v.filtered|
    ensures k == |v.filtered| <==> v.currentPage * v.itemsPerPage >= |v.filtered|
    ensures k <= v.currentPage * v.itemsPerPage
    ensures k == |v.filtered| || k == v.currentPage * v.itemsPerPage
  {
    Min(v.currentPage * v.itemsPerPage, |v.filtered|)
  }

  /** The records displayFavorites renders: `slice(0, endIndex)`, always from
      index 0. */
  function Shown(v: ViewState): (r: seq<Favorite>)
    requires Valid(v)
    ensures |r| == PageEnd(v) && r == v.filtered[..|r|]
  {
    v.filtered[..PageEnd(v)]
  }

  /** displayFavorites as written: an empty list replaces the grid with a message
      (and leaves `isLoading` alone); otherwise the rendered prefix replaces the
      grid, or in append mode is added after what the grid already holds. */
  function DisplayAsWritten(v: ViewState, append: bool): (r: ViewState)
    requires Valid(v)
    ensures |v.filtered| == 0 ==> r == v.(grid := [])
    ensures |v.filtered| > 0 ==> !r.isLoading
    ensures |v.filtered| > 0 && append ==> r.grid == v.grid + Shown(v)
    ensures !append ==> r.grid == Shown(v)
    ensures r.(grid := v.grid, isLoading := v.isLoading) == v
  {
    if |v.filtered| == 0 then v.(grid := [])
    else v.(grid := if append then v.grid + Shown(v) else Shown(v), isLoading := false)
  }

  /** displayFavorites as evidently intended: in append mode only the records of
      the current page, `slice(startIndex, endIndex)`, are added. */
  function Display(v: ViewState, append: bool): (r: ViewState)
    requires Valid(v)
    ensures |v.filtered| == 0 ==> r == v.(grid := [])
    ensures |v.filtered| > 0 ==> !r.isLoading
    ensures !append ==> r.grid == Shown(v)
    ensures r.(grid := v.grid, isLoading := v.isLoading) == v
  {
    if |v.filtered| == 0 then v.(grid := [])
    else
      var start := Min((v.currentPage - 1) * v.itemsPerPage, |v.filtered|);
      var page := v.filtered[start..PageEnd(v)];
      v.(grid := if append then v.grid + page else Shown(v), isLoading := false)
  }

  /** `Math.ceil(n / size)`. */
  function TotalPages(n: nat, size: int): (t: nat)
    requires size >= 1
    ensures (t - 1) * size < n <= t * size || (n == 0 && t == 0)
  {
    (n + size - 1) / size
  }

  /** The guard of loadMoreItems in plain terms: there is a next page exactly when
      the pages shown so far do not yet hold every record. */
  lemma MorePagesIffMoreRecords(page: int, n: nat, size: int)
    requires page >= 1 && size >= 1
    ensures page < TotalPages(n, size) <==> page * size < n
  {
    var t := TotalPages(n, size);
    if page < t {
      assert page <= t - 1;
      assert page * size <= (t - 1) * size by {
        MulMonotone(page, t - 1, size);
      }
    } else if n > 0 {
      assert t <= page;
      assert t * size <= page * size by {
        MulMonotone(t, page, size);
      }
    }
  }

  lemma MulMonotone(a: int, b: int, c: int)
    requires a <= b && c >= 0
    ensures a * c <= b * c
  {
  }

  /** loadMoreItems without its 100 ms display: nothing while a load is pending or
      on the last page; otherwise the loading flag goes up and the page number
      goes up by exactly one. */
  function LoadMoreItems(v: ViewState): (r: ViewState)
    requires Valid(v)
    ensures Valid(r)
    ensures v.isLoading || v.currentPage * v.itemsPerPage >= |v.filtered| ==> r == v
    ensures !v.isLoading && v.currentPage * v.itemsPerPage < |v.filtered| ==>
      r == v.(currentPage := v.currentPage + 1, isLoading := true)
  {
    MorePagesIffMoreRecords(v.currentPage, |v.filtered|, v.itemsPerPage);
    if v.isLoading then v
    else if v.currentPage >= TotalPages(|v.filtered|, v.itemsPerPage) then v
    else v.(currentPage := v.currentPage + 1, isLoading := true)
  }

  /** filterFavorites: the new filtered list from page 1, redisplayed. */
  function FilterView(v: ViewState, term: string, category: string): (r: ViewState)
    requires Valid(v)
    ensures Valid(r) && r.currentPage == 1
    ensures r.filtered == WebFilter(v.all, term, category)
    ensures r.grid == Shown(r)
    ensures r.isLoading == (v.isLoading && |r.filtered| == 0)
    ensures r.all == v.all && r.categories == v.categories && r.itemsPerPage == v.itemsPerPage
  {
    Display(v.(filtered := WebFilter(v.all, term, category), currentPage := 1), false)
  }

  /** The page-size selector: a new size from page 1, redisplayed. */
  function ChangePageSize(v: ViewState, size: int): (r: ViewState)
    requires Valid(v) && size >= 1
    ensures Valid(r) && r.currentPage == 1 && r.itemsPerPage == size
    ensures r.grid == Shown(r)
    ensures r.isLoading == (v.isLoading && |r.filtered| == 0)
    ensures r.all == v.all && r.filtered == v.filtered && r.categories == v.categories
  {
    Display(v.(itemsPerPage := size, currentPage := 1), false)
  }

  /** loadData's success path: the records and categories the background returned,
      unfiltered, from page 1. */
  function Reload(v: ViewState, favorites: seq<Favorite>, categories: seq<string>): (r: ViewState)
    requires Valid(v)
    ensures Valid(r) && r.currentPage == 1 && r.filtered == r.all == favorites
    ensures r.grid == Shown(r)
    ensures r.isLoading == (v.isLoading && |favorites| == 0)
    ensures r.categories == categories && r.itemsPerPage == v.itemsPerPage
  {
    Display(v.(all := favorites, categories := categories, filtered := favorites, currentPage := 1), false)
  }

  /** The grid shows exactly the rendered prefix and no load is pending. */
  predicate GridInSync(v: ViewState) {
    Valid(v) && v.grid == Shown(v) && (|v.filtered| > 0 ==> !v.isLoading)
  }

  /** One scroll-triggered step: loadMoreItems followed by its delayed append. */
  function ScrollStep(v: ViewState): (r: ViewState)
    requires Valid(v)
    ensures Valid(r)
  {
    var w := LoadMoreItems(v);
    if w == v then v else Display(w, true)
  }

  /** With the corrected append, every step of the view keeps the grid equal to
      the rendered prefix. */
  lemma ScrollKeepsGridInSync(v: ViewState)
    requires GridInSync(v)
    ensures GridInSync(ScrollStep(v))
  {
    var w := LoadMoreItems(v);
    if w != v {
      var start := Min((w.currentPage - 1) * w.itemsPerPage, |w.filtered|);
      assert start == PageEnd(v);
      assert v.grid + w.filtered[start..PageEnd(w)] == Shown(w);
    }
  }

  lemma FilterKeepsGridInSync(v: ViewState, term: string, category: string)
    requires GridInSync(v)
    ensures GridInSync(FilterView(v, term, category))
  {
  }

  /** Changing the page size leaves the grid in sync with the rendered prefix. */
  lemma PageSizeKeepsGridInSync(v: ViewState, size: int)
    requires GridInSync(v) && size >= 1
    ensures GridInSync(ChangePageSize(v, size))
  {
  }

  /** A reload from a settled view leaves the grid in sync, whatever it loads. */
  lemma ReloadKeepsGridInSync(v: ViewState, favorites: seq<Favorite>, categories: seq<string>)
    requires GridInSync(v)
    ensures GridInSync(Reload(v, favorites, categories))
  {
  }

  /** As written, 25 records at 20 per page leave 45 cards in the grid after one
      "load more": the first 20 twice and the last 5 once. */
  lemma AppendDuplicatesCards()
    ensures forall xs: seq<Favorite> :: |xs| == 25 ==>
      var v := ViewState(xs, [], xs, 1, DefaultPageSize, false, xs[..20]);
      && GridInSync(v)
      && var w := LoadMoreItems(v);
      && w.currentPage == 2
      && |DisplayAsWritten(w, true).grid| == 45
      && |Display(w, true).grid| == 25
  {
    forall xs: seq<Favorite> | |xs| == 25
      ensures var v := ViewState(xs, [], xs, 1, DefaultPageSize, false, xs[..20]);
        && GridInSync(v)
        && var w := LoadMoreItems(v);
        && w.currentPage == 2
        && |DisplayAsWritten(w, true).grid| == 45
        && |Display(w, true).grid| == 25
    {
      var v := ViewState(xs, [], xs, 1, DefaultPageSize, false, xs[..20]);
      assert PageEnd(v) == 20;
      var w := LoadMoreItems(v);
      assert w.currentPage == 2;
      assert PageEnd(w) == 25;
    }
  }

  /** updatePagination's count: `min(page * size, total)`, never above the total. */
  function DisplayedCount(page: int, size: int, total: nat): (k: int)
    ensures k <= total
    ensures k == total <==> page * size >= total
    ensures k <= page * size && (k == total || k == page * size)
  {
    Min(page * size, total)
  }

  /** The count label matches the grid whenever the grid is in sync. */
  lemma LabelMatchesGrid(v: ViewState)
    requires GridInSync(v)
    ensures DisplayedCount(v.currentPage, v.itemsPerPage, |v.filtered|) == |v.grid|
  {
  }

  /** `fav => fav.imageUrl` as a filter test, and its negation. */
  predicate HasImage(f: Favorite) {
    Present(f.imageUrl)
  }

  predicate NoImage(f: Favorite) {
    !Present(f.imageUrl)
  }

  /** updateStats: the record count, the category count and how many records have
      a truthy image URL. */
  function Stats(v: ViewState): (r: (nat, nat, nat))
    ensures r.0 == |v.all| && r.1 == |v.categories|
    ensures r.2 == |PassingIndices(HasImage, v.all)|
    ensures r.2 <= r.0
    ensures r.2 == r.0 <==> forall k :: 0 <= k < |v.all| ==> Present(v.all[k].imageUrl)
    ensures r.2 == 0 <==> forall f :: f in v.all ==> !Present(f.imageUrl)
  {
    var withImage := Filter(HasImage, v.all);
    FilterKeepsAll(HasImage, v.all);
    FilterEmpty(HasImage, v.all);
    SubseqLength(withImage, v.all);
    FilterCountsIndices(HasImage, v.all);
    (|v.all|, |v.categories|, |withImage|)
  }

  /** The records with an image and those without one add up to the record
      count. */
  lemma StatsPartition(v: ViewState)
    ensures Stats(v).2 + |PassingIndices(NoImage, v.all)| == Stats(v).0
  {
    FilterCountsIndices(HasImage, v.all);
    FilterCountsIndices(NoImage, v.all);
    FilterSplitCount(HasImage, NoImage, v.all);
  }
}
