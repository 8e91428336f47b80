/** Where the popup's own delete and edit agree with the background handlers that
    do the same job on request (popup/popup.js and background/background.js):
    the popup compares ids with `===`, the background delete compares
    `String(id)`, and the background update spreads an arbitrary patch. */
module Agreement {
  import opened Results
  import opened Seqs
  import opened Text
  import opened Favorites
  import Popup
  import Background
  import WebView

  /** The background delete removes at least what the popup delete removes: its
      result is a subsequence of the popup's. */
  lemma BackgroundDeletesAtLeastPopup(st: Store, id: Id)
    requires st.favorites != Malformed
    ensures IsSubseq(Background.DeleteHandler(st, id).value.favorites.items,
                     Popup.DeleteFavorite(st, id, true).favorites.items)
  {
    var xs := ReadFavorites(st.favorites).value;
    var strict := (f: Favorite) => f.id != id;
    var text := (f: Favorite) => IdText(f.id) != IdText(id);
    forall x | x in xs && text(x) ensures strict(x) {
    }
    FilterMonotone(strict, text, xs);
  }

  /** When every id involved is a string, both deletes leave the same list. */
  lemma DeletesAgreeOnStringIds(st: Store, id: Id)
    requires st.favorites != Malformed
    requires id.StrId?
    requires forall f :: f in ReadFavorites(st.favorites).value ==> f.id.StrId?
    ensures Background.DeleteHandler(st, id).value.favorites == Popup.DeleteFavorite(st, id, true).favorites
  {
    var xs := ReadFavorites(st.favorites).value;
    var strict := (f: Favorite) => f.id != id;
    var text := (f: Favorite) => IdText(f.id) != IdText(id);
    forall x | x in xs ensures strict(x) == text(x) {
      TextEqualOnStrings(x.id, id);
    }
    FilterCongruent(strict, text, xs);
  }

  /** A record saved with the number id 5 survives a popup delete of "5" but not
      a background delete of "5". */
  lemma DeletesDisagreeAcrossKinds()
    ensures var f := Favorite(NumId(5), "t", "u", None, None, [], 0, None);
      var st := Store(Items([f]), [], [], [], None, None, []);
      && Popup.DeleteFavorite(st, StrId("5"), true).favorites == Items([f])
      && Background.DeleteHandler(st, StrId("5")).value.favorites == Items([])
  {
    var f := Favorite(NumId(5), "t", "u", None, None, [], 0, None);
    TextEqualAcrossKinds();
    assert IdText(f.id) == IdText(StrId("5"));
  }

  /** The patch a popup edit amounts to: the five form fields and the tags. */
  function EditPatch(form: Popup.EditForm): (p: Background.Patch)
    ensures p.id.None? && p.timestamp.None?
    ensures p.title == Some(Trim(form.title)) && p.url == Some(Trim(form.url))
    ensures p.tags == Some(Popup.EditTags(form))
  {
    var imageUrl := Trim(form.imageUrl);
    var category := Popup.EditCategory(form);
    Background.Patch(None, Some(Trim(form.title)), Some(Trim(form.url)),
                     Some(if imageUrl == "" then None else Some(imageUrl)),
                     Some(if category == "" then None else Some(category)),
                     Some(Popup.EditTags(form)), None)
  }

  /** The record a popup edit writes is the background's patched record, except
      for the form of the `updatedAt` stamp. */
  lemma EditIsPatch(f: Favorite, form: Popup.EditForm, now: int, stamp: string)
    ensures Popup.EditedRecord(f, Trim(form.title), Trim(form.url), Trim(form.imageUrl),
                               Popup.EditCategory(form), Popup.EditTags(form), now)
         == Background.ApplyPatch(f, EditPatch(form), stamp).(updatedAt := Some(Millis(now)))
  {
  }

  /** After a popup save the background's data request reports the new record as
      the last of the list, and the web view then lists it. */
  lemma SavedRecordIsServed(st: Store, form: Popup.SaveForm, isUrl: string -> bool, now: int)
    requires Popup.SaveAccepted(st, form, isUrl)
    ensures var d := Background.GetFavoritesData(Popup.SaveFavorite(st, form, isUrl, now).value);
      && d.favorites.Items?
      && |d.favorites.items| == |ReadFavorites(st.favorites).value| + 1
      && d.favorites.items[|d.favorites.items| - 1] == Popup.NewRecord(form, now)
      && Popup.NewRecord(form, now) in WebView.WebFilter(d.favorites.items, "", "")
  {
    var d := Background.GetFavoritesData(Popup.SaveFavorite(st, form, isUrl, now).value);
    WebView.WebFilterCategory(d.favorites.items, "", "");
  }
}
