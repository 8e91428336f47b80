/** The records the extension keeps in `browser.storage.local` and the shape of
    that store. */
module Favorites {
  import opened Results
  import opened Text

  /** A record id as JavaScript sees it: ids made by the popup are strings
      (`Date.now().toString()`), while a message may carry a number. */
  datatype Id = StrId(text: string) | NumId(num: int)

  /** `String(id)`. */
  function IdText(id: Id): string {
    match id
    case StrId(s) => s
    case NumId(n) => Decimal(n)
  }

  /** JavaScript truthiness of an id: `''` and `0` are falsy. */
  predicate IdTruthy(id: Id) {
    match id
    case StrId(s) => s != ""
    case NumId(n) => n != 0
  }

  /** Between string ids, string comparison and strict comparison agree. */
  lemma TextEqualOnStrings(a: Id, b: Id)
    requires a.StrId? && b.StrId?
    ensures IdText(a) == IdText(b) <==> a == b
  {
  }

  /** A number id and a string id can print alike, e.g. 5 and "5". */
  lemma TextEqualAcrossKinds()
    ensures IdText(NumId(5)) == IdText(StrId("5")) && NumId(5) != StrId("5")
  {
    assert Digits(5) == ['5'];
  }

  /** When a record was last edited: the popup stores `Date.now()`, the
      background handler `new Date().toISOString()`. */
  datatype Stamp = Millis(ms: int) | IsoText(text: string)

  /** One bookmark. `timestamp` is milliseconds since the epoch; `imageUrl` and
      `category` may be `null`. */
  datatype Favorite = Favorite(
    id: Id,
    title: string,
    url: string,
    imageUrl: Option<string>,
    category: Option<string>,
    tags: seq<string>,
    timestamp: int,
    updatedAt: Option<Stamp>)

  /** JavaScript truthiness of an optional string. */
  predicate Present(s: Option<string>) {
    s.Some? && s.value != ""
  }

  /** What is stored under the `favorites` key: nothing (or another falsy value),
      a truthy value that is not an array, or an array of records. */
  datatype Slot = Missing | Malformed | Items(items: seq<Favorite>)

  /** `result.favorites || []`. */
  function OrEmpty(slot: Slot): (r: Slot)
    ensures r != Missing
    ensures slot == Missing ==> r == Items([])
    ensures slot != Missing ==> r == slot
  {
    if slot == Missing then Items([]) else slot
  }

  /** The list a handler works on after `result.favorites || []`; `None` when the
      value is not an array, where the next array method call throws. */
  function ReadFavorites(slot: Slot): (r: Option<seq<Favorite>>)
    ensures r.None? <==> slot == Malformed
    ensures slot == Missing ==> r == Some([])
    ensures slot.Items? ==> r == Some(slot.items)
  {
    match slot
    case Missing => Some([])
    case Malformed => None
    case Items(xs) => Some(xs)
  }

  /** One entry of the `backups` history (`backupDate` is `taken`), also the
      payload of the redundant `favorites_backup_N` keys. */
  datatype Snapshot = Snapshot(favorites: Slot, categories: seq<string>, taken: int)

  /** The storage keys the core reads and writes. `mirrors` lists the values of
      `favorites_backup_1`, `_2` and `_3` (empty before the first mirror write). */
  datatype Store = Store(
    favorites: Slot,
    categories: seq<string>,
    allTags: seq<string>,
    backups: seq<Snapshot>,
    lastBackup: Option<int>,
    lastAutoBackup: Option<int>,
    mirrors: seq<Snapshot>)
}
