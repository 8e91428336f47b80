/** The background script's storage handlers (background/background.js): the
    favorite-status lookup, and the delete and update requests other pages send
    it. Each handler reads the store once and writes it at most once. */
module Background {
  import opened Results
  import opened Seqs
  import opened Favorites
  import opened Urls

  /** Why a handler answers `success: false`. */
  datatype HandlerError =
    | CorruptStore   // `favorites` holds a truthy non-array, so the array method call throws
    | NotFound       // no record has the requested id
    | MissingTags    // the patch has no `tags`, so `tags.forEach` throws

  /** The answer to `checkFavoriteStatus`. */
  datatype Status = Status(isFavorite: bool, exactMatch: bool, cleanMatch: bool,
                           favoriteData: Option<Favorite>)

  /** checkFavoriteStatus: the first record whose URL equals the target, the first
      whose clean URL equals the target's clean URL, and which of them to report. */
  function CheckFavoriteStatus(slot: Slot, target: string, parse: UrlParser): (r: Result<Status, HandlerError>)
    ensures r.Failure? <==> slot == Malformed
    ensures r.Success? ==>
      var xs, clean := ReadFavorites(slot).value, CleanUrl(parse, target);
      && (r.value.exactMatch <==> exists f :: f in xs && f.url == target)
      && (r.value.cleanMatch <==> exists f :: f in xs && CleanUrl(parse, f.url) == clean)
      && (r.value.isFavorite <==> r.value.exactMatch || r.value.cleanMatch)
      && (r.value.favoriteData.Some? <==> r.value.isFavorite)
  {
    match ReadFavorites(slot)
    case None => Failure(CorruptStore)
    case Some(xs) =>
      var exact := Find(xs, (f: Favorite) => f.url == target);
      var clean := Find(xs, (f: Favorite) => CleanUrl(parse, f.url) == CleanUrl(parse, target));
      var data := if exact.Some? then exact else clean;
      Success(Status(exact.Some? || clean.Some?, exact.Some?, clean.Some?, data))
  }

  /** The reported record is the first exact match when there is one, and the
      first clean match otherwise. */
  lemma StatusReportsFirstMatch(slot: Slot, target: string, parse: UrlParser)
    requires slot != Malformed
    ensures var r, xs := CheckFavoriteStatus(slot, target, parse).value, ReadFavorites(slot).value;
      r.exactMatch ==> exists i :: (0 <= i < |xs| && xs[i] == r.favoriteData.value
        && xs[i].url == target && forall j :: 0 <= j < i ==> xs[j].url != target)
    ensures var r, xs := CheckFavoriteStatus(slot, target, parse).value, ReadFavorites(slot).value;
      var clean := CleanUrl(parse, target);
      !r.exactMatch && r.cleanMatch ==> exists i :: (0 <= i < |xs| && xs[i] == r.favoriteData.value
        && CleanUrl(parse, xs[i].url) == clean && forall j :: 0 <= j < i ==> CleanUrl(parse, xs[j].url) != clean)
  {
  }

  /** A record whose URL is the target also has the target's clean URL, so an
      exact match always comes with a clean match and `isFavorite` is the clean
      match alone. */
  lemma ExactMatchIsCleanMatch(slot: Slot, target: string, parse: UrlParser)
    requires slot != Malformed
    ensures var r := CheckFavoriteStatus(slot, target, parse).value;
      (r.exactMatch ==> r.cleanMatch) && (r.isFavorite <==> r.cleanMatch)
  {
    var r := CheckFavoriteStatus(slot, target, parse).value;
    var xs := ReadFavorites(slot).value;
    if r.exactMatch {
      var f :| f in xs && f.url == target;
      assert CleanUrl(parse, f.url) == CleanUrl(parse, target);
    }
  }

  /** The payload of `getFavoritesData`. */
  datatype FavoritesData = FavoritesData(favorites: Slot, categories: seq<string>, allTags: seq<string>)

  /** getFavoritesData: the three stored lists as they are, a missing `favorites`
      read as an empty list. A malformed value is passed through untouched. */
  function GetFavoritesData(st: Store): (d: FavoritesData)
    ensures d.favorites != Missing
    ensures st.favorites != Missing ==> d.favorites == st.favorites
    ensures ReadFavorites(d.favorites) == ReadFavorites(st.favorites)
    ensures d.categories == st.categories && d.allTags == st.allTags
  {
    FavoritesData(OrEmpty(st.favorites), st.categories, st.allTags)
  }

  /** The background delete handler: drops every record whose `String(id)` equals
      `String(target)` and always writes the remaining list back, even when
      nothing matched. Only `favorites` is written. */
  function DeleteHandler(st: Store, target: Id): (r: Result<Store, HandlerError>)
    ensures r.Failure? <==> st.favorites == Malformed
    ensures r.Success? ==>
      var xs := ReadFavorites(st.favorites).value;
      && r.value.favorites.Items?
      && IsSubseq(r.value.favorites.items, xs)
      && (forall f :: f in r.value.favorites.items <==> f in xs && IdText(f.id) != IdText(target))
      && (forall f :: multiset(r.value.favorites.items)[f] ==
            if IdText(f.id) != IdText(target) then multiset(xs)[f] else 0)
    ensures r.Success? ==> r.value.(favorites := st.favorites) == st
  {
    match ReadFavorites(st.favorites)
    case None => Failure(CorruptStore)
    case Some(xs) =>
      Success(st.(favorites := Items(Filter((f: Favorite) => IdText(f.id) != IdText(target), xs))))
  }

  /** The handler's "not found" case: the length is unchanged exactly when no
      record matched, and then the list is written back as it was. */
  lemma DeleteUnmatchedRewrites(st: Store, target: Id)
    requires st.favorites != Malformed
    ensures var xs, ys := ReadFavorites(st.favorites).value, DeleteHandler(st, target).value.favorites.items;
      && (|ys| == |xs| <==> forall f :: f in xs ==> IdText(f.id) != IdText(target))
      && (|ys| == |xs| ==> ys == xs)
  {
    var xs := ReadFavorites(st.favorites).value;
    var keep := (f: Favorite) => IdText(f.id) != IdText(target);
    FilterKeepsAll(keep, xs);
    assert (forall i :: 0 <= i < |xs| ==> keep(xs[i])) <==> (forall f :: f in xs ==> keep(f));
  }

  /** `message.data`: each field is either absent (`None`) or the value to spread
      over the record. `imageUrl` and `category` may be set to `null`. */
  datatype Patch = Patch(
    id: Option<Id>,
    title: Option<string>,
    url: Option<string>,
    imageUrl: Option<Option<string>>,
    category: Option<Option<string>>,
    tags: Option<seq<string>>,
    timestamp: Option<int>)

  function Over<T>(patched: Option<T>, kept: T): T {
    match patched case Some(v) => v case None => kept
  }

  /** `{ ...f, ...data, updatedAt: stamp }`. */
  function ApplyPatch(f: Favorite, p: Patch, stamp: string): (g: Favorite)
    ensures g.updatedAt == Some(IsoText(stamp))
    ensures p.id.None? ==> g.id == f.id
    ensures p.title.None? ==> g.title == f.title
    ensures p.url.None? ==> g.url == f.url
    ensures p.imageUrl.None? ==> g.imageUrl == f.imageUrl
    ensures p.category.None? ==> g.category == f.category
    ensures p.tags.None? ==> g.tags == f.tags
    ensures p.timestamp.None? ==> g.timestamp == f.timestamp
  {
    Favorite(Over(p.id, f.id), Over(p.title, f.title), Over(p.url, f.url),
             Over(p.imageUrl, f.imageUrl), Over(p.category, f.category),
             Over(p.tags, f.tags), Over(p.timestamp, f.timestamp), Some(IsoText(stamp)))
  }

  /** Spreading the same patch twice is spreading it once. */
  lemma ApplyPatchIdempotent(f: Favorite, p: Patch, stamp: string)
    ensures ApplyPatch(ApplyPatch(f, p, stamp), p, stamp) == ApplyPatch(f, p, stamp)
  {
  }

  /** Every field the patch sets takes the patch's value. */
  lemma ApplyPatchSetsPatched(f: Favorite, p: Patch, stamp: string)
    ensures var g := ApplyPatch(f, p, stamp);
      && (p.id.Some? ==> g.id == p.id.value)
      && (p.title.Some? ==> g.title == p.title.value)
      && (p.url.Some? ==> g.url == p.url.value)
      && (p.imageUrl.Some? ==> g.imageUrl == p.imageUrl.value)
      && (p.category.Some? ==> g.category == p.category.value)
      && (p.tags.Some? ==> g.tags == p.tags.value)
      && (p.timestamp.Some? ==> g.timestamp == p.timestamp.value)
  {
  }

  /** JavaScript truthiness of the patch's category. */
  predicate PatchCategoryTruthy(p: Patch) {
    p.category.Some? && Present(p.category.value)
  }

  /** The background update handler: finds the record with the strictly equal id,
      spreads the patch over it with a fresh ISO `updatedAt`, adds a truthy new
      category and the patch's absent tags to their lists, then writes
      `favorites`, `categories` and `allTags` together. */
  function UpdateHandler(st: Store, target: Id, p: Patch, stamp: string): (r: Result<Store, HandlerError>)
    ensures st.favorites == Malformed ==> r == Failure(CorruptStore)
    ensures st.favorites != Malformed ==>
      (r == Failure(NotFound) <==> forall f :: f in ReadFavorites(st.favorites).value ==> f.id != target)
    ensures r.Success? <==>
      && st.favorites != Malformed && p.tags.Some?
      && exists f :: f in ReadFavorites(st.favorites).value && f.id == target
    ensures (st.favorites != Malformed && p.tags.None? &&
             exists f :: f in ReadFavorites(st.favorites).value && f.id == target) ==>
      r == Failure(MissingTags)
    ensures r.Success? ==>
      var xs := ReadFavorites(st.favorites).value;
      && r.value.favorites.Items? && |r.value.favorites.items| == |xs|
      && exists i :: 0 <= i < |xs| && xs[i].id == target && (forall j :: 0 <= j < i ==> xs[j].id != target)
           && r.value.favorites.items == xs[i := ApplyPatch(xs[i], p, stamp)]
    ensures r.Success? ==> r.value.(favorites := st.favorites, categories := st.categories, allTags := st.allTags) == st
  {
    match ReadFavorites(st.favorites)
    case None => Failure(CorruptStore)
    case Some(xs) =>
      match FindIndex(xs, (f: Favorite) => f.id == target)
      case None => Failure(NotFound)
      case Some(i) =>
        if p.tags.None? then Failure(MissingTags)
        else
          var cats := if PatchCategoryTruthy(p) && p.category.value.value !in st.categories
                      then st.categories + [p.category.value.value] else st.categories;
          Success(st.(favorites := Items(xs[i := ApplyPatch(xs[i], p, stamp)]),
                      categories := cats,
                      allTags := AppendAbsent(st.allTags, p.tags.value)))
  }

  /** A successful update only ever grows the name lists, adding a truthy category
      and the patch's tags exactly when they were absent, keeping the old entries
      in order and introducing no duplicate. */
  lemma UpdateExtendsLists(st: Store, target: Id, p: Patch, stamp: string)
    requires UpdateHandler(st, target, p, stamp).Success?
    ensures var r := UpdateHandler(st, target, p, stamp).value;
      && |st.categories| <= |r.categories| && r.categories[..|st.categories|] == st.categories
      && (forall c :: c in r.categories <==>
            (c in st.categories || (PatchCategoryTruthy(p) && c == p.category.value.value)))
      && (NoDup(st.categories) ==> NoDup(r.categories))
    ensures var r := UpdateHandler(st, target, p, stamp).value;
      && |st.allTags| <= |r.allTags| && r.allTags[..|st.allTags|] == st.allTags
      && (forall t :: t in r.allTags <==> t in st.allTags || t in p.tags.value)
      && (NoDup(st.allTags) ==> NoDup(r.allTags))
      && AppendedInOrder(st.allTags, p.tags.value, r.allTags)
  {
    var r := UpdateHandler(st, target, p, stamp).value;
    AppendAbsentOrder(st.allTags, p.tags.value);
    if PatchCategoryTruthy(p) && p.category.value.value !in st.categories {
      var cats := st.categories + [p.category.value.value];
      assert cats[..|st.categories|] == st.categories;
      assert r.categories == cats;
    }
  }

  /** Every tag of a stored record stays listed in `allTags` after an update. */
  lemma UpdateKeepsTagsIndexed(st: Store, target: Id, p: Patch, stamp: string)
    requires st.favorites.Items? ==>
      forall f, t :: f in st.favorites.items && t in f.tags ==> t in st.allTags
    requires UpdateHandler(st, target, p, stamp).Success?
    ensures var r := UpdateHandler(st, target, p, stamp).value;
      forall f, t :: f in r.favorites.items && t in f.tags ==> t in r.allTags
  {
    var r := UpdateHandler(st, target, p, stamp).value;
    var xs := ReadFavorites(st.favorites).value;
    UpdateExtendsLists(st, target, p, stamp);
    var i :| 0 <= i < |xs| && xs[i].id == target && (forall j :: 0 <= j < i ==> xs[j].id != target)
           && r.favorites.items == xs[i := ApplyPatch(xs[i], p, stamp)];
    var ys := r.favorites.items;
    forall f, t | f in ys && t in f.tags ensures t in r.allTags {
      var j :| 0 <= j < |ys| && ys[j] == f;
      if j != i {
        assert xs[j] in xs;
      }
    }
  }
}
