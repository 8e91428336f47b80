/** The store side of the popup's FavoritesManager (popup/popup.js): saving a
    new favorite, deleting one and editing one, each as one read-modify-write of
    the store. */
module Popup {
  import opened Results
  import opened Seqs
  import opened Text
  import opened Favorites
  import opened Backups

  /** Every tag used by a stored favorite is listed in `allTags`. */
  predicate TagsIndexed(st: Store) {
    st.favorites.Items? ==>
      forall f, t :: f in st.favorites.items && t in f.tags ==> t in st.allTags
  }

  lemma TrimmedPieceWellFormed(piece: string, sep: char)
    requires sep !in piece
    ensures sep !in Trim(piece) && Trim(Trim(piece)) == Trim(piece)
  {
    TrimKeepsCharacters(piece);
    TrimIdempotent(piece);
  }

  /** Every piece trimmed: `map(t => t.trim())`. */
  function TrimAll(parts: seq<string>): (r: seq<string>)
    ensures |r| == |parts| && forall j {:trigger r[j]} :: 0 <= j < |parts| ==> r[j] == Trim(parts[j])
  {
    seq(|parts|, j requires 0 <= j < |parts| => Trim(parts[j]))
  }

  /** A comma-separated tag input: `split(',').map(t => t.trim()).filter(t => t)`.
      Every tag it yields is non-empty, comma-free and already trimmed; the tags
      are the non-blank trimmed pieces, in input order and with repeats kept. */
  function ParseTagInput(input: string): (r: seq<string>)
    ensures forall k :: 0 <= k < |r| ==> r[k] != "" && ',' !in r[k] && Trim(r[k]) == r[k]
    ensures IsSubseq(r, TrimAll(Split(input, ',')))
    ensures forall t :: t in r <==> t != "" && t in TrimAll(Split(input, ','))
    ensures forall t :: multiset(r)[t] == if t != "" then multiset(TrimAll(Split(input, ',')))[t] else 0
  {
    var parts := Split(input, ',');
    var r := Filter(NonBlank, TrimAll(parts));
    NonBlankPiecesWellFormed(parts, r);
    NonBlankPiecesKept(TrimAll(parts), r);
    r
  }

  /** `filter(t => t)` on strings: the empty string is falsy. */
  predicate NonBlank(t: string) {
    t != ""
  }

  /** The tags are the non-blank pieces, in order and with repeats kept. */
  lemma NonBlankPiecesKept(trimmed: seq<string>, r: seq<string>)
    requires r == Filter(NonBlank, trimmed)
    ensures IsSubseq(r, trimmed)
    ensures forall t :: t in r <==> t != "" && t in trimmed
    ensures forall t :: multiset(r)[t] == if t != "" then multiset(trimmed)[t] else 0
  {
    forall t ensures multiset(r)[t] == if t != "" then multiset(trimmed)[t] else 0 {
      assert NonBlank(t) <==> t != "";
    }
  }

  lemma NonBlankPiecesWellFormed(parts: seq<string>, r: seq<string>)
    requires forall j :: 0 <= j < |parts| ==> ',' !in parts[j]
    requires r == Filter(NonBlank, TrimAll(parts))
    ensures forall k :: 0 <= k < |r| ==> r[k] != "" && ',' !in r[k] && Trim(r[k]) == r[k]
  {
    var trimmed := TrimAll(parts);
    forall k | 0 <= k < |r| ensures r[k] != "" && ',' !in r[k] && Trim(r[k]) == r[k] {
      assert r[k] in trimmed;
      var j :| 0 <= j < |parts| && trimmed[j] == r[k];
      TrimmedPieceWellFormed(parts[j], ',');
    }
  }

  /** The tags a save or an edit writes: the selected tags, then every parsed input
      tag not already among them (Set insertion for a save, popup/popup.js:297-299;
      the `includes` loop for an edit, popup/popup.js:855-863). */
  function MergeTags(selected: seq<string>, input: string): (r: seq<string>)
    ensures |selected| <= |r| && r[..|selected|] == selected
    ensures forall t :: t in r <==> t in selected || t in ParseTagInput(input)
    ensures NoDup(selected) ==> NoDup(r)
    ensures AppendedInOrder(selected, ParseTagInput(input), r)
  {
    AppendAbsentOrder(selected, ParseTagInput(input));
    AppendAbsent(selected, ParseTagInput(input))
  }

  /** The add form: title, URL, image URL, the category drop-down and the
      new-category box, the comma-separated tag box and the tags toggled on. */
  datatype SaveForm = SaveForm(
    title: string, url: string, imageUrl: string,
    categoryChoice: string, newCategory: string,
    tagsInput: string, selectedTags: seq<string>)

  datatype SaveError = MissingTitleOrUrl | InvalidUrl | InvalidImageUrl | CorruptStore

  /** The drop-down's choice, or the new-category box when nothing is chosen. */
  function ChosenCategory(form: SaveForm): string {
    if form.categoryChoice != "" then form.categoryChoice else form.newCategory
  }

  /** The record saveFavorite builds at time `now`. */
  function NewRecord(form: SaveForm, now: int): Favorite {
    Favorite(StrId(Decimal(now)), form.title, form.url,
             if form.imageUrl == "" then None else Some(form.imageUrl),
             Some(ChosenCategory(form)), MergeTags(form.selectedTags, form.tagsInput),
             now, None)
  }

  /** The store saveFavorite writes before its automatic backup: `xs` with the new
      record appended, the chosen category added when it is non-empty and absent,
      and each of the record's tags added when absent. */
  function AddRecord(st: Store, xs: seq<Favorite>, form: SaveForm, now: int): (w: Store)
    ensures w.favorites == Items(xs + [NewRecord(form, now)])
    ensures var cat := ChosenCategory(form);
      w.categories == if cat != "" && cat !in st.categories then st.categories + [cat] else st.categories
    ensures |st.allTags| <= |w.allTags| && w.allTags[..|st.allTags|] == st.allTags
    ensures forall t :: t in w.allTags <==> t in st.allTags || t in NewRecord(form, now).tags
    ensures NoDup(st.allTags) ==> NoDup(w.allTags)
    ensures AppendedInOrder(st.allTags, NewRecord(form, now).tags, w.allTags)
    ensures w.(favorites := st.favorites, categories := st.categories, allTags := st.allTags) == st
  {
    var rec := NewRecord(form, now);
    var cat := ChosenCategory(form);
    AppendAbsentOrder(st.allTags, rec.tags);
    st.(favorites := Items(xs + [rec]),
        categories := if cat != "" then AppendAbsent(st.categories, [cat]) else st.categories,
        allTags := AppendAbsent(st.allTags, rec.tags))
  }

  /** A save goes through: title and URL are filled in, the URL and any image URL
      parse, and the stored favorites are an array. */
  predicate SaveAccepted(st: Store, form: SaveForm, isUrl: string -> bool) {
    && form.title != "" && form.url != "" && isUrl(form.url)
    && (form.imageUrl == "" || isUrl(form.imageUrl))
    && st.favorites != Malformed
  }

  /** saveFavorite: validates the form, appends the new record, extends the
      category and tag lists with what they lack, then runs the automatic backup.
      `isUrl` stands for `new URL(...)` not throwing. */
  function SaveFavorite(st: Store, form: SaveForm, isUrl: string -> bool, now: int): (r: Result<Store, SaveError>)
    ensures form.title == "" || form.url == "" ==> r == Failure(MissingTitleOrUrl)
    ensures r.Success? <==> SaveAccepted(st, form, isUrl)
    ensures r.Success? ==>
      var xs := ReadFavorites(st.favorites).value;
      && r.value.favorites == Items(xs + [NewRecord(form, now)])
      && r.value.mirrors == st.mirrors
  {
    if form.title == "" || form.url == "" then Failure(MissingTitleOrUrl)
    else if !isUrl(form.url) then Failure(InvalidUrl)
    else if form.imageUrl != "" && !isUrl(form.imageUrl) then Failure(InvalidImageUrl)
    else
      match ReadFavorites(st.favorites)
      case None => Failure(CorruptStore)
      case Some(xs) => Success(AutoBackup(AddRecord(st, xs, form, now), now))
  }

  /** A successful save adds the chosen category and the record's tags to the
      lists that lack them, keeping the lists' order and their freedom from
      duplicates. */
  lemma SaveExtendsLists(st: Store, form: SaveForm, isUrl: string -> bool, now: int)
    requires SaveAccepted(st, form, isUrl)
    ensures var r, cat := SaveFavorite(st, form, isUrl, now).value, ChosenCategory(form);
      r.categories == if cat != "" && cat !in st.categories then st.categories + [cat] else st.categories
    ensures var r := SaveFavorite(st, form, isUrl, now).value;
      && |st.allTags| <= |r.allTags| && r.allTags[..|st.allTags|] == st.allTags
      && (forall t :: t in r.allTags <==> t in st.allTags || t in NewRecord(form, now).tags)
      && (NoDup(st.allTags) ==> NoDup(r.allTags))
      && AppendedInOrder(st.allTags, NewRecord(form, now).tags, r.allTags)
  {
  }

  /** A successful save runs the daily automatic backup: when due, the newest
      snapshot holds the favorites just written. */
  lemma SaveRunsAutoBackup(st: Store, form: SaveForm, isUrl: string -> bool, now: int)
    requires SaveAccepted(st, form, isUrl)
    ensures var r := SaveFavorite(st, form, isUrl, now).value;
      r.lastBackup == (if AutoBackupDue(st.lastAutoBackup, now) then Some(now) else st.lastBackup)
    ensures var r := SaveFavorite(st, form, isUrl, now).value;
      AutoBackupDue(st.lastAutoBackup, now) ==>
        && r.lastAutoBackup == Some(now)
        && |r.backups| == Min(|st.backups| + 1, MaxBackups)
        && r.backups[0].favorites == r.favorites
    ensures var r := SaveFavorite(st, form, isUrl, now).value;
      !AutoBackupDue(st.lastAutoBackup, now) ==>
        r.backups == st.backups && r.lastAutoBackup == st.lastAutoBackup
  {
  }

  /** A save keeps every stored tag listed. */
  lemma SaveKeepsTagsIndexed(st: Store, form: SaveForm, isUrl: string -> bool, now: int)
    requires TagsIndexed(st)
    ensures SaveFavorite(st, form, isUrl, now).Success? ==>
      TagsIndexed(SaveFavorite(st, form, isUrl, now).value)
  {
  }

  /** deleteFavorite: after confirmation, keeps the records whose id is not
      strictly equal to `id`. */
  function DeleteFavorite(st: Store, id: Id, confirmed: bool): (r: Store)
    ensures !confirmed || st.favorites == Malformed ==> r == st
    ensures confirmed && st.favorites != Malformed ==>
      var xs := ReadFavorites(st.favorites).value;
      && r.favorites.Items?
      && IsSubseq(r.favorites.items, xs)
      && (forall f :: f in r.favorites.items ==> f.id != id)
      && (forall f :: multiset(r.favorites.items)[f] == if f.id != id then multiset(xs)[f] else 0)
    ensures r.(favorites := st.favorites) == st
  {
    if !confirmed then st
    else
      match ReadFavorites(st.favorites)
      case None => st
      case Some(xs) => st.(favorites := Items(Filter((f: Favorite) => f.id != id, xs)))
  }

  lemma DeleteKeepsTagsIndexed(st: Store, id: Id, confirmed: bool)
    requires TagsIndexed(st)
    ensures TagsIndexed(DeleteFavorite(st, id, confirmed))
  {
  }

  /** The edit form; `editing` is `editingFavoriteId`. */
  datatype EditForm = EditForm(
    editing: Option<Id>,
    title: string, url: string, imageUrl: string,
    categoryChoice: string, newCategory: string,
    tagsInput: string, selectedTags: seq<string>)

  /** The tags an edit writes: the selected tags, extended from the trimmed tag box
      when it is not blank (popup/popup.js:855-863). */
  function EditTags(form: EditForm): seq<string> {
    var input := Trim(form.tagsInput);
    if input == "" then form.selectedTags else MergeTags(form.selectedTags, input)
  }

  /** The record an edit writes in place of `f`: the form's fields replace title,
      URL, image URL, category and tags, `''` becoming `null`, and `updatedAt` is
      stamped; id, timestamp and everything else are kept. */
  function EditedRecord(f: Favorite, title: string, url: string, imageUrl: string,
                        category: string, tags: seq<string>, now: int): (g: Favorite)
    ensures g.id == f.id && g.timestamp == f.timestamp
    ensures g.title == title && g.url == url && g.tags == tags && g.updatedAt == Some(Millis(now))
    ensures g.imageUrl == (if imageUrl == "" then None else Some(imageUrl))
    ensures g.category == (if category == "" then None else Some(category))
  {
    f.(title := title, url := url,
       imageUrl := if imageUrl == "" then None else Some(imageUrl),
       category := if category == "" then None else Some(category),
       tags := tags, updatedAt := Some(Millis(now)))
  }

  /** The checks an edit passes before it looks for the record: an editing id
      that is truthy and a title and URL that are not blank after trimming. */
  predicate EditAccepted(form: EditForm) {
    form.editing.Some? && IdTruthy(form.editing.value)
    && Trim(form.title) != "" && Trim(form.url) != ""
  }

  /** The index of the record being edited: the first one whose id is strictly
      equal to the editing id, if the store holds one. */
  function EditTarget(st: Store, form: EditForm): (r: Option<nat>)
    requires form.editing.Some?
    ensures r.Some? ==>
      && ReadFavorites(st.favorites).Some?
      && r.value < |ReadFavorites(st.favorites).value|
      && ReadFavorites(st.favorites).value[r.value].id == form.editing.value
    ensures r.Some? ==>
      forall j :: 0 <= j < r.value ==> ReadFavorites(st.favorites).value[j].id != form.editing.value
    ensures r.None? && ReadFavorites(st.favorites).Some? ==>
      forall f :: f in ReadFavorites(st.favorites).value ==> f.id != form.editing.value
  {
    match ReadFavorites(st.favorites)
    case None => None
    case Some(xs) => FindIndex(xs, (f: Favorite) => f.id == form.editing.value)
  }

  /** The category an edit writes: the trimmed new-category box when it is not
      blank, the drop-down's choice otherwise. */
  function EditCategory(form: EditForm): string {
    var newCategory := Trim(form.newCategory);
    if newCategory != "" then newCategory else form.categoryChoice
  }

  /** The favorites list with the record at `i` replaced by its edited version. */
  function WriteEdit(xs: seq<Favorite>, i: nat, form: EditForm, category: string, now: int): (ys: seq<Favorite>)
    requires i < |xs|
    ensures |ys| == |xs|
    ensures forall j :: 0 <= j < |xs| && j != i ==> ys[j] == xs[j]
    ensures ys[i] == EditedRecord(xs[i], Trim(form.title), Trim(form.url), Trim(form.imageUrl),
                                  category, EditTags(form), now)
  {
    xs[i := EditedRecord(xs[i], Trim(form.title), Trim(form.url), Trim(form.imageUrl),
                         category, EditTags(form), now)]
  }

  /** updateFavorite as written. `this.allCategories` is never assigned in the
      popup, so a non-blank new category throws before anything is written; and
      `this.updateAllTags` is not defined, so after the favorites are written the
      call throws and `allTags` is never extended. */
  function UpdateFavoriteAsWritten(st: Store, form: EditForm, now: int): (r: Store)
    ensures r.categories == st.categories && r.allTags == st.allTags
    ensures Trim(form.newCategory) != "" ==> r == st
  {
    if !EditAccepted(form) || Trim(form.newCategory) != "" then st
    else
      match EditTarget(st, form)
      case None => st
      case Some(i) =>
        st.(favorites := Items(WriteEdit(ReadFavorites(st.favorites).value, i, form, form.categoryChoice, now)))
  }

  /** The record used by the two examples below, and a store holding only it. */
  function SampleRecord(): Favorite {
    Favorite(StrId("1"), "t", "u", None, None, [], 0, None)
  }

  function SampleStore(): Store {
    Store(Items([SampleRecord()]), [], [], [], None, None, [])
  }

  /** An edit form for the sample record that keeps its title and URL. */
  function SampleForm(newCategory: string, selected: seq<string>): EditForm {
    EditForm(Some(StrId("1")), "t", "u", "", "", newCategory, "", selected)
  }

  /** The sample form's fields are already trimmed. */
  lemma SampleTrims()
    ensures Trim("t") == "t" && Trim("u") == "u" && Trim("") == "" && Trim("news") == "news"
  {
    TrimUnchanged("");
    TrimWord("t");
    TrimWord("u");
    TrimWord("news");
  }

  /** A non-empty word of lower-case letters is its own trim. */
  lemma TrimWord(w: string)
    requires |w| > 0 && forall k :: 0 <= k < |w| ==> 'a' <= w[k] <= 'z'
    ensures Trim(w) == w
  {
    TrimUnchanged(w);
  }

  /** The sample form passes the checks and finds the sample record. */
  lemma SampleFormFinds(newCategory: string, selected: seq<string>)
    ensures EditAccepted(SampleForm(newCategory, selected))
    ensures EditTarget(SampleStore(), SampleForm(newCategory, selected)) == Some(0)
    ensures EditTags(SampleForm(newCategory, selected)) == selected
  {
    SampleTrims();
    SampleTarget(SampleForm(newCategory, selected));
  }

  lemma SampleTarget(form: EditForm)
    requires form.editing == Some(StrId("1"))
    ensures EditTarget(SampleStore(), form) == Some(0)
  {
    var xs := [SampleRecord()];
    assert ReadFavorites(SampleStore().favorites) == Some(xs);
    assert SampleRecord() in xs && SampleRecord().id == form.editing.value;
    assert EditTarget(SampleStore(), form).value < 1;
  }

  /** An edit that introduces a new category changes nothing as written, while
      the corrected edit stores the category on the record and lists it. */
  lemma NewCategoryEditIsLost()
    ensures UpdateFavoriteAsWritten(SampleStore(), SampleForm("news", []), 5) == SampleStore()
    ensures UpdateFavorite(SampleStore(), SampleForm("news", []), 5).favorites
      == Items([SampleRecord().(category := Some("news"), updatedAt := Some(Millis(5)))])
    ensures UpdateFavorite(SampleStore(), SampleForm("news", []), 5).categories == ["news"]
  {
    SampleTrims();
    SampleNewsRecord();
    SampleNewsListed();
  }

  lemma SampleNewsRecord()
    ensures UpdateFavorite(SampleStore(), SampleForm("news", []), 5).favorites
      == Items([SampleRecord().(category := Some("news"), updatedAt := Some(Millis(5)))])
  {
    var form := SampleForm("news", []);
    SampleTrims();
    SampleFormFinds("news", []);
    assert EditCategory(form) == "news";
    var ys := WriteEdit([SampleRecord()], 0, form, "news", 5);
    assert ys == [SampleRecord().(category := Some("news"), updatedAt := Some(Millis(5)))];
  }

  lemma SampleNewsListed()
    ensures UpdateFavorite(SampleStore(), SampleForm("news", []), 5).categories == ["news"]
  {
    var st, form := SampleStore(), SampleForm("news", []);
    SampleTrims();
    SampleFormFinds("news", []);
    UpdateLists(st, form, 5);
    var cs := AppendAbsent([], ["news"]);
    assert EditCategories(st, form) == cs;
    assert |cs| == 1 && cs[0] in ["news"];
  }

  /** An edit that adds a tag leaves the stored record's tag unlisted as written;
      the corrected edit lists it. */
  lemma EditTagNotIndexed()
    ensures TagsIndexed(SampleStore())
    ensures !TagsIndexed(UpdateFavoriteAsWritten(SampleStore(), SampleForm("", ["new"]), 5))
    ensures TagsIndexed(UpdateFavorite(SampleStore(), SampleForm("", ["new"]), 5))
  {
    var st, form := SampleStore(), SampleForm("", ["new"]);
    SampleFormFinds("", ["new"]);
    assert EditCategory(form) == "";
    var r := UpdateFavoriteAsWritten(st, form, 5);
    var ys := WriteEdit([SampleRecord()], 0, form, "", 5);
    assert r.favorites == Items(ys);
    assert ys[0].tags == ["new"] && ys[0] in ys;
    assert r.allTags == [];
    UpdateKeepsTagsIndexed(st, form, 5);
  }

  /** updateFavorite as evidently intended: a non-blank new category becomes the
      record's category and is added to `categories` (written before the record
      is looked up, as in the source), and after the record is written `allTags`
      gains the record's tags it lacks. */
  function UpdateFavorite(st: Store, form: EditForm, now: int): (r: Store)
    ensures !EditAccepted(form) ==> r == st
    ensures EditAccepted(form) && EditTarget(st, form).None? ==>
      r.favorites == st.favorites && r.allTags == st.allTags
    ensures EditAccepted(form) && EditTarget(st, form).Some? ==>
      r.favorites == Items(WriteEdit(ReadFavorites(st.favorites).value, EditTarget(st, form).value,
                                     form, EditCategory(form), now))
    ensures r.(favorites := st.favorites, categories := st.categories, allTags := st.allTags) == st
  {
    if !EditAccepted(form) then st
    else
      var st1 := st.(categories := EditCategories(st, form));
      match EditTarget(st, form)
      case None => st1
      case Some(i) =>
        st1.(favorites := Items(WriteEdit(ReadFavorites(st.favorites).value, i, form, EditCategory(form), now)),
             allTags := AppendAbsent(st.allTags, EditTags(form)))
  }

  /** The category list an accepted edit writes: the trimmed new category added
      when it is not blank. */
  function EditCategories(st: Store, form: EditForm): seq<string> {
    var newCategory := Trim(form.newCategory);
    if newCategory != "" then AppendAbsent(st.categories, [newCategory]) else st.categories
  }

  /** The two name lists after an edit, in terms of the pieces above. */
  lemma UpdateLists(st: Store, form: EditForm, now: int)
    ensures var r := UpdateFavorite(st, form, now);
      && r.categories == (if EditAccepted(form) then EditCategories(st, form) else st.categories)
      && r.allTags == (if EditAccepted(form) && EditTarget(st, form).Some?
                       then AppendAbsent(st.allTags, EditTags(form)) else st.allTags)
  {
  }

  /** An accepted edit with a non-blank new category adds it to `categories` when
      absent, whether or not the record is found; otherwise `categories` is kept.
      Order and freedom from duplicates are kept either way. */
  lemma UpdateExtendsCategories(st: Store, form: EditForm, now: int)
    ensures var r := UpdateFavorite(st, form, now);
      EditAccepted(form) && Trim(form.newCategory) != "" ==>
        forall c :: c in r.categories <==> c in st.categories || c == Trim(form.newCategory)
    ensures !EditAccepted(form) || Trim(form.newCategory) == "" ==>
      UpdateFavorite(st, form, now).categories == st.categories
    ensures var r := UpdateFavorite(st, form, now);
      |st.categories| <= |r.categories| && r.categories[..|st.categories|] == st.categories
    ensures NoDup(st.categories) ==> NoDup(UpdateFavorite(st, form, now).categories)
  {
    UpdateLists(st, form, now);
  }

  /** When the record is found, `allTags` gains exactly the edited tags it lacked,
      in order and without introducing duplicates. */
  lemma UpdateExtendsTags(st: Store, form: EditForm, now: int)
    ensures var r := UpdateFavorite(st, form, now);
      EditAccepted(form) && EditTarget(st, form).Some? ==>
        forall t :: t in r.allTags <==> t in st.allTags || t in EditTags(form)
    ensures var r := UpdateFavorite(st, form, now);
      |st.allTags| <= |r.allTags| && r.allTags[..|st.allTags|] == st.allTags
    ensures NoDup(st.allTags) ==> NoDup(UpdateFavorite(st, form, now).allTags)
    ensures var r := UpdateFavorite(st, form, now);
      EditAccepted(form) && EditTarget(st, form).Some? ==>
        AppendedInOrder(st.allTags, EditTags(form), r.allTags)
  {
    UpdateLists(st, form, now);
    AppendAbsentOrder(st.allTags, EditTags(form));
  }

  /** Replacing one record by one whose tags are listed keeps every tag listed. */
  lemma ReplaceKeepsTagsListed(xs: seq<Favorite>, i: nat, ys: seq<Favorite>, tags: seq<string>)
    requires i < |xs| == |ys|
    requires forall j :: 0 <= j < |xs| && j != i ==> ys[j] == xs[j]
    requires forall f, t :: f in xs && t in f.tags ==> t in tags
    requires forall t :: t in ys[i].tags ==> t in tags
    ensures forall f, t :: f in ys && t in f.tags ==> t in tags
  {
    forall f, t | f in ys && t in f.tags ensures t in tags {
      var j :| 0 <= j < |ys| && ys[j] == f;
      if j != i {
        assert xs[j] in xs;
      }
    }
  }

  /** The corrected edit keeps every stored tag listed. */
  lemma UpdateKeepsTagsIndexed(st: Store, form: EditForm, now: int)
    requires TagsIndexed(st)
    ensures TagsIndexed(UpdateFavorite(st, form, now))
  {
    var r := UpdateFavorite(st, form, now);
    if EditAccepted(form) && EditTarget(st, form).Some? {
      var i, xs := EditTarget(st, form).value, ReadFavorites(st.favorites).value;
      var ys := WriteEdit(xs, i, form, EditCategory(form), now);
      UpdateExtendsTags(st, form, now);
      ReplaceKeepsTagsListed(xs, i, ys, r.allTags);
    }
  }
}
