# Enhanced Video Favorites — a Dafny model of the favorites store

Enhanced Video Favorites is a browser extension that bookmarks pages, most of them video pages. Each bookmark ("favorite") has a title, a URL, an optional image URL, an optional category and a list of tags. The extension keeps three lists in the browser's local storage: `favorites`, `categories` and `allTags`. Beside them it keeps a history of up to five backups and three redundant mirror copies.

This project models the code that reads and writes those lists, as pure functions over an immutable `Store`, and proves properties of them.

- **Popup** (`popup/popup.js`)
  - Saving a favorite: validation, the category and tag lists, and the automatic daily backup.
  - Deleting and editing a favorite.
  - The newest-first list of ten.
  - The search and category filter.
  - Title truncation.
  - Manual and automatic backups, restore, and the start-up integrity check.
- **Background script** (`background/background.js`)
  - The favorite-status lookup: exact URL, or "clean" URL without query and fragment.
  - The data request.
  - The delete and update requests that other pages send.
- **Content script** (`content/content.js`)
  - The star marker on the page title.
  - The indicator's tag summary and "similar URL" note.
  - The re-check when a single-page site changes its URL.
- **Full-page viewer** (`web-view.js`)
  - Its search filter, the growing card grid with its infinite scroll, the count label and the statistics.
- **Hosted web-view function** (`tools/functions/web-view/index.ts`)
  - Path normalisation and routing.
  - The row mapping of its API route.
  - The de-duplicated tag list of its API route.
- **Build script** (`build-config.js`)
  - The `.env.local` line parser.
  - The precedence between that file and the process environment.

Modules, one per file:

| module | what it holds |
|---|---|
| `Results` | `Option`, `Result` |
| `Seqs` | filter, subsequence, first-match search, append-if-absent, de-duplication |
| `Text` | JavaScript `trim`, `split`/`join`, ASCII lower-casing, decimal numbers |
| `Urls` | `getCleanUrl` |
| `Favorites` | the data model |
| `Backups` | backups and the integrity check |
| `Popup` | save, delete, edit |
| `PopupList` | the popup's list view |
| `Background` | the background handlers |
| `Agreement` | how the popup's handlers relate to the background's |
| `ContentPage` | the content script |
| `WebView` | the viewer |
| `EdgeFunction` | the hosted function |
| `BuildConfig` | the build script |

### Modelling choices

- **Ids.** An id is `StrId(text)` or `NumId(n)`. This keeps apart the popup's strict `===` comparison and the background delete's `String(id)` comparison.
- **Stored `favorites` value.** The value is a `Slot`: `Missing`, `Malformed` (a truthy non-array) or `Items(list)`. `result.favorites || []` gives the empty list for `Missing`. For `Malformed`, the array call that follows throws; the model returns a failure and writes nothing.
- **`new URL(...)`** is a parameter of the model. It is a `UrlParser` that returns the origin and pathname, or `isUrl` for validity only.
- **Times** are integers in milliseconds.
  - A record's `timestamp` is the instant that its ISO text denotes. The popup's sort compares parsed instants, so only the instant matters.
  - `updatedAt` records which form was written. The popup writes a number (`Millis`). The background writes an ISO string (`IsoText`).
- **Timers and confirmation dialogs.**
  - The 100 ms delay before the viewer appends cards is modelled as two steps: `LoadMoreItems`, then `Display`.
  - The result of a `confirm` dialog is a boolean parameter.
- **The hosted function's backend.** The authentication service and the two database queries are given as a `Backend` value: their replies for the request's token.

### What the code does not do

- There is no de-duplication of favorites, by URL or otherwise: two saves of the same page keep two records.
- The popup always sorts newest first; there is no other sort order. Neither the popup nor the viewer has a tag selector; tags are matched only through the search term.
- Nothing checks that ids are unique. A save takes `Date.now()` as the id.

## Model

| member | source | states |
|---|---|---|
| Urls.StripQueryAndFragment | background/background.js:344-351 | the fallback clean URL is the longest prefix of the URL that contains neither `#` nor `?` |
| Urls.StripIdempotent | background/background.js:349 | cleaning an already cleaned fallback URL gives it back unchanged |
| Urls.CleanUrl | content/content.js:23-30 | a URL that parses gives its origin followed by its pathname; one that does not gives its longest prefix free of `#` and `?` |
| Favorites.TextEqualOnStrings | background/background.js:138-139 | for two string ids, comparing `String(id)` is the same as comparing strictly |
| Favorites.OrEmpty | background/background.js:108 | `value \|\| []`: a missing value becomes the empty list, and any value that is present is kept untouched |
| Favorites.ReadFavorites | background/background.js:171 | the handlers get a list exactly when the stored value is not malformed; a missing value reads as the empty list, an array as itself |
| Favorites.TextEqualAcrossKinds | background/background.js:138-139 | the number id 5 and the string id "5" are not strictly equal, yet compare equal as `String(id)` |
| Backups.CreateBackup | popup/popup.js:1081-1109 | the new snapshot goes first and the older ones shift back by one; the history is cut to five; `lastBackup` is stamped; nothing else changes |
| Backups.BackupHistoryBounded | popup/popup.js:1094-1097 | starting from a history of at most five snapshots, any run of backups keeps it at five or fewer |
| Backups.FiveBackupsFillHistory | popup/popup.js:1094-1097 | after five backups the history is exactly those five, newest first |
| Backups.AutoBackup | popup/popup.js:1142-1157 | when the last automatic backup is missing or more than a day old, a backup is taken: the new snapshot goes first, the older ones follow in order, the history is cut to five, and both `lastBackup` and `lastAutoBackup` are stamped; otherwise nothing changes |
| Backups.AutoBackupOncePerDay | popup/popup.js:1149 | a second save within a day of an automatic backup adds no snapshot; a save more than a day later adds one |
| Backups.RestoreFromBackup | popup/popup.js:1112-1139 | with no snapshot, or without confirmation, nothing changes; otherwise the newest snapshot's favorites and categories replace the current ones, and nothing else changes |
| Backups.BackupRestoreRoundTrip | popup/popup.js:1081-1139 | restoring right after a backup brings back the backed-up favorites and categories |
| Backups.RedundantBackup | popup/popup.js:58-76 | the three mirror keys each hold the same snapshot of the store; nothing else changes |
| Backups.CheckDataIntegrity | popup/popup.js:23-55 | an array of favorites is kept; otherwise the newest snapshot is restored if there is one, else both lists are emptied; the mirrors then copy the result |
| Backups.IntegrityCheckRepairs | popup/popup.js:28-46 | after the check, `favorites` is an array exactly when it already was, or there is no snapshot, or the newest snapshot's list is not itself malformed |
| Backups.RecoverFromOwnBackup | popup/popup.js:28-37 | a store that was backed up and then lost its favorites is recovered to exactly the backed-up lists |
| Backups.IntegrityCheckIdempotent | popup/popup.js:23-55 | once the check has produced an array of favorites, running it again changes nothing |
| Popup.ParseTagInput | popup/popup.js:297 | the tags are the comma-separated pieces, trimmed, with the blank ones dropped, in input order and with repeats kept; each tag is non-empty, free of commas and trimmed |
| Popup.MergeTags | popup/popup.js:297-299 | the selected tags stay first and in order; the typed tags not yet selected follow in the order they were typed; the result holds exactly the selected and the typed tags; it has no duplicate when the selection had none |
| Seqs.AppendAbsentOrder | popup/popup.js:855-863 | the `includes`-then-`push` loop appends the new elements in the order the input first mentions them |
| Popup.AddRecord | popup/popup.js:340-359 | the new record is appended; the chosen category is added only when it is non-empty and absent; `allTags` keeps its entries in order, gains exactly the record's missing tags in the record's order, and stays free of duplicates; nothing else changes |
| Popup.SaveFavorite | popup/popup.js:265-364 | an empty title or URL is rejected; a save succeeds exactly when the URL, and any image URL, parse and the stored list is an array; success appends the new record to the stored list and leaves the mirrors alone |
| Popup.SaveExtendsLists | popup/popup.js:344-356 | after a save, `categories` gains the chosen category when it is non-empty and new; `allTags` keeps its entries in order and gains the record's new tags in the order the record lists them, with no duplicate introduced |
| Popup.SaveRunsAutoBackup | popup/popup.js:1142-1157 | a save runs the daily backup: when one is due, the newest snapshot holds the favorites just written, and the history grows up to five; otherwise the history is untouched |
| Popup.SaveKeepsTagsIndexed | popup/popup.js:344-356 | a save keeps every tag of every stored record listed in `allTags` |
| Popup.DeleteFavorite | popup/popup.js:681-688 | without confirmation, or when the stored value is not an array, nothing changes; otherwise the result is the list in order without the records strictly equal to the id, each other record kept as often as before; only `favorites` changes |
| Popup.DeleteKeepsTagsIndexed | popup/popup.js:685-686 | a delete keeps every remaining record's tags listed |
| Popup.EditedRecord | popup/popup.js:875-883 | the edited record keeps its id and timestamp; it takes the form's title, URL and tags; an empty image URL or category becomes null; `updatedAt` is stamped with the time |
| Popup.EditTarget | popup/popup.js:866-873 | the record edited is the first whose id is strictly equal to the editing id; when none is found, no record has that id |
| Popup.WriteEdit | popup/popup.js:875-885 | only the target record is replaced, by its edited version; the list keeps its length |
| Popup.UpdateFavoriteAsWritten | popup/popup.js:824-888 | as written, an edit never changes `categories` or `allTags`, and an edit with a non-blank new category changes nothing at all |
| Popup.NewCategoryEditIsLost | popup/popup.js:844-851 | an edit that gives a record the new category "news" is lost as written, while the corrected edit stores it and lists it |
| Popup.EditTagNotIndexed | popup/popup.js:885-888 | as written, an edit that adds a tag leaves that tag missing from `allTags`; the corrected edit lists it |
| Popup.UpdateFavorite | popup/popup.js:824-885 | a rejected edit changes nothing; an edit of a missing record leaves the favorites and tags alone; a found record is replaced by its edited version; only the three lists change |
| Popup.UpdateExtendsCategories | popup/popup.js:844-851 | a non-blank new category is added when absent, whether or not the record is found; `categories` keeps its order and stays free of duplicates |
| Popup.UpdateExtendsTags | popup/popup.js:855-888 | when the record is found, `allTags` keeps its entries in order and gains exactly the edited tags it lacked, in the order of the edited tags, with no duplicate |
| Popup.UpdateKeepsTagsIndexed | popup/popup.js:855-888 | the corrected edit keeps every stored tag listed in `allTags` |
| PopupList.Insert | popup/popup.js:529-533 | inserting into a newest-first list gives a newest-first list with the same records plus the new one |
| PopupList.SortNewestFirst | popup/popup.js:529-533 | the sorted list is newest first and a rearrangement of the input; the sort is stable: the records sharing a timestamp keep their input order |
| PopupList.SortKeepsSorted | popup/popup.js:529-533 | a list that is already newest first comes back unchanged |
| PopupList.LoadFavorites | popup/popup.js:522-537 | a malformed store gives nothing; otherwise the whole list is sorted newest first, and the first ten are shown |
| PopupList.ShownAreNewest | popup/popup.js:529-536 | no shown record is older than a record left out |
| PopupList.PopupFilter | popup/popup.js:697-713 | the filtered list keeps the order of the input and holds exactly the records in the category whose title or a tag contains the term, ignoring ASCII case; each kept record appears as often as in the input |
| PopupList.PopupFilterNoCriteria | popup/popup.js:702-713 | with no category and no term, every record is kept |
| PopupList.PopupShown | popup/popup.js:697-715 | the shown list is the first ten records of the filtered list, or all of them when fewer match; each matches the filter and they keep list order |
| PopupList.LastIndexOf | popup/popup.js:1014 | the result is the last position of the character, or -1 when it does not occur |
| PopupList.CutAt | popup/popup.js:1006-1017 | the cut falls at the limit, or at the last space before the limit when that space lies beyond 70% of it and the title has no Japanese character |
| PopupList.TruncateTitle | popup/popup.js:998-1020 | an empty title gives `''`; a title that fits is unchanged; a longer one becomes a prefix of the title followed by `...` |
| PopupList.TruncatedLength | popup/popup.js:1006-1019 | a truncated title is at most three characters longer than the limit and keeps more than 70% of the allowed characters |
| Background.CheckFavoriteStatus | background/background.js:27-80 | the request fails exactly when the store is malformed; `exactMatch` and `cleanMatch` hold exactly when some record has the same URL or the same clean URL; `isFavorite` is their disjunction, and a record is reported exactly then |
| Background.StatusReportsFirstMatch | background/background.js:41-60 | the reported record is the first exact match, or, failing that, the first clean match |
| Background.ExactMatchIsCleanMatch | background/background.js:41-59 | an exact match always comes with a clean match, so `isFavorite` is the clean match alone |
| Background.GetFavoritesData | background/background.js:93-124 | the data request reports the three stored lists unchanged, a missing list as empty |
| Background.DeleteHandler | background/background.js:128-166 | the remaining list is the old one in order without the records whose `String(id)` equals the target's, each other record kept as often as before; only `favorites` is written |
| Background.DeleteUnmatchedRewrites | background/background.js:139-148 | the length is unchanged exactly when no record matched, and the list is then written back as it was |
| Background.ApplyPatch | background/background.js:181-185 | every field absent from the patch keeps its value, and `updatedAt` becomes the ISO stamp |
| Background.ApplyPatchSetsPatched | background/background.js:181-185 | every field in the patch takes the patch's value |
| Background.ApplyPatchIdempotent | background/background.js:181-185 | spreading the same patch twice is spreading it once |
| Background.UpdateHandler | background/background.js:167-214 | a malformed store or an unknown id fails; a found record with a patch without tags fails with the missing-tags error; otherwise the first record with a strictly equal id, and only it, is replaced by the patched record; nothing but the three lists changes |
| Background.UpdateExtendsLists | background/background.js:187-197 | `categories` and `allTags` keep their entries in order; they gain exactly a truthy new category and the patch's absent tags, the tags appended in the order the patch first names them, with no duplicate introduced |
| Background.UpdateKeepsTagsIndexed | background/background.js:181-199 | an update keeps every stored tag listed in `allTags` |
| Agreement.BackgroundDeletesAtLeastPopup | background/background.js:138-139 | the background delete's result is a subsequence of the popup delete's, so it removes at least as much |
| Agreement.DeletesAgreeOnStringIds | popup/popup.js:685 | when every id is a string, both deletes leave the same list |
| Agreement.DeletesDisagreeAcrossKinds | background/background.js:138-139 | a record saved with the numeric id 5 survives the popup's delete of "5" but not the background's |
| Agreement.EditPatch | popup/popup.js:875-883 | the patch equivalent to a popup edit sets the trimmed title and URL and the edited tags, and leaves the id and timestamp alone |
| Agreement.EditIsPatch | background/background.js:181-185 | a popup edit writes the same record as the background update with the equivalent patch, up to the form of `updatedAt` |
| Agreement.SavedRecordIsServed | background/background.js:104-111 | after a save, the data request ends its list with the new record, and the web view's filter with no criteria keeps it |
| ContentPage.MarkTitle | content/content.js:136-149 | a favorite page's title carries the marker; an unmarked title gains exactly the marker; a marked title of a non-favorite loses exactly one marker; otherwise the title is unchanged |
| ContentPage.MarkIdempotent | content/content.js:141-142 | marking twice is marking once |
| ContentPage.UnmarkRestores | content/content.js:141-145 | unmarking a title that the script marked restores the original title |
| ContentPage.UnmarkStripsOneMarker | content/content.js:143-144 | a title carrying the marker twice loses one marker per call |
| ContentPage.TagSummary | content/content.js:180-183 | up to three tags are joined by `", "`; with more, ` +k` counts the tags left unnamed |
| ContentPage.JoinParsesBack | content/content.js:181 | a `", "`-joined list of well-formed tags reads back through the popup's tag box as the same tags |
| ContentPage.SummaryReadsBack | content/content.js:180-183 | the tag line reads back as what it summarises: the named tags, and the count of the others |
| ContentPage.IndicatorFor | content/content.js:152-195 | the similar-URL note appears exactly without an exact match; a category is shown exactly when truthy; a tag line is shown exactly when there are tags, and it is their summary |
| ContentPage.SimilarNoteIffNoExactRecord | content/content.js:189-191 | for a status the background computed, the similar-URL note appears exactly when no stored record has the page's own URL; on a favorite page it then stands for a record with a matching clean URL |
| ContentPage.StatusOf | content/content.js:33-53 | a failed request reads as "not a favorite" with no record |
| ContentPage.CheckAndShow | content/content.js:56-68 | the indicator is shown exactly for a favorite, and the title is marked or unmarked to match |
| ContentPage.OnUrlChange | content/content.js:389-396 | the same URL changes nothing; a new URL is recorded with its clean form and re-checked |
| ContentPage.UrlChangeSettles | content/content.js:390-392 | a second notice of the same URL changes nothing, whatever the background answers |
| WebView.WebFilter | web-view.js:264-281 | the list keeps the input order and holds exactly the records in the category whose title, URL or a tag contains the term, ignoring ASCII case; each kept record appears as often as in the input |
| WebView.WebFilterCategory | web-view.js:270-272 | with a category chosen, every record kept has exactly that category; with no criteria, every record is kept |
| WebView.PopupResultsAreWebResults | web-view.js:274-280 | whatever the popup's filter finds, the viewer's filter finds too, in the same relative order |
| WebView.PageEnd | web-view.js:152-154 | the rendered prefix holds `min(page × size, n)` records: all `n` when the pages shown so far cover the list, `page × size` otherwise |
| WebView.DisplayAsWritten | web-view.js:130-169 | as written, an append adds the whole rendered prefix after the cards already in the grid |
| WebView.Display | web-view.js:130-169 | an empty list clears the grid; a full redisplay shows exactly the rendered prefix; the loading flag drops; no other field changes |
| WebView.TotalPages | web-view.js:236 | the page count is the ceiling of the record count over the page size |
| WebView.MorePagesIffMoreRecords | web-view.js:236-237 | there is a next page exactly when the pages shown so far do not hold every record |
| WebView.LoadMoreItems | web-view.js:233-246 | nothing happens while loading or on the last page; otherwise the page number goes up by one and the loading flag is raised |
| WebView.FilterView | web-view.js:264-285 | filtering starts again from page 1 and shows exactly the rendered prefix of the new list; all records, the categories and the page size are kept, so the next filter starts from all records again |
| WebView.ChangePageSize | web-view.js:44-48 | a new page size starts again from page 1 and shows exactly the rendered prefix; all records, the filtered list and the categories are kept |
| WebView.PageSizeKeepsGridInSync | web-view.js:44-48 | changing the page size keeps the grid equal to the rendered prefix |
| WebView.Reload | web-view.js:93-108 | loaded data starts unfiltered from page 1, with the grid showing the rendered prefix; the categories become the loaded ones and the page size is kept |
| WebView.ReloadKeepsGridInSync | web-view.js:93-108 | a reload keeps the grid equal to the rendered prefix |
| WebView.ScrollKeepsGridInSync | web-view.js:233-246 | with the corrected append, each scroll step keeps the grid equal to the rendered prefix |
| WebView.FilterKeepsGridInSync | web-view.js:264-285 | filtering keeps the grid equal to the rendered prefix |
| WebView.AppendDuplicatesCards | web-view.js:152-159 | as written, 25 records at 20 per page leave 45 cards after one "load more"; the corrected append leaves 25 |
| WebView.DisplayedCount | web-view.js:256-262 | the count label is `min(page × size, total)`: the total exactly when the pages shown cover every record, `page × size` otherwise |
| WebView.LabelMatchesGrid | web-view.js:256-262 | while the grid is in sync, the count label equals the number of cards |
| WebView.Stats | web-view.js:287-292 | the counts are the number of records, the number of categories and the number of records with a truthy image URL; the image count equals the record count exactly when every record has one, and is zero exactly when none has |
| WebView.StatsPartition | web-view.js:287-292 | the records with an image and those without one add up to the record count |
| EdgeFunction.NormalizePath | tools/functions/web-view/index.ts:20 | the path is never empty; a pathname without the function prefix is kept; otherwise the prefix and one non-empty segment are removed |
| EdgeFunction.NormalizeRoundTrip | tools/functions/web-view/index.ts:20 | prefixing a path with `/functions/v1/<segment>` and normalising gives the path back |
| EdgeFunction.StripsOnePrefix | tools/functions/web-view/index.ts:20 | only the first prefix is stripped |
| EdgeFunction.SlashIsKept | tools/functions/web-view/index.ts:20-24 | a pathname starting with `/` normalises to one that does too, so the route for `favorites` without a slash is never taken |
| EdgeFunction.FormatRow | tools/functions/web-view/index.ts:107-115 | the id text reads back as the row's id; `image_url` becomes `imageUrl` and `created_at` becomes `timestamp`; missing tags become no tags |
| EdgeFunction.FormatKeepsIdsApart | tools/functions/web-view/index.ts:108 | rows with different ids get different id texts |
| EdgeFunction.AllTagsDistinct | tools/functions/web-view/index.ts:118 | the tag list names every tag of every record exactly once, in order of first occurrence |
| EdgeFunction.DatabaseDetails | tools/functions/web-view/index.ts:96-100 | the error detail is the favorites query's message when non-empty, else the categories query's |
| EdgeFunction.ApiResponse | tools/functions/web-view/index.ts:48-135 | a missing or empty Authorization header gives 401 `Authorization required`; a failed user lookup gives 401 `User not authenticated` with the lookup's error; a failed query gives 500 `Database error` with the first query message; success requires the header, a user and both queries, and returns the mapped rows, the category names and the distinct tags |
| EdgeFunction.Handle | tools/functions/web-view/index.ts:9-146 | OPTIONS gives `ok`; a GET on the viewer paths redirects (302) to the trimmed setting, or fails with 500 when it is blank; a GET on the API path is the API answer; anything else is 404 |
| EdgeFunction.EveryResponseHasCors | tools/functions/web-view/index.ts:4-7 | every answer carries both CORS headers |
| EdgeFunction.StatusesUsed | tools/functions/web-view/index.ts:9-146 | every answer has status 200, 302, 401, 404 or 500 |
| EdgeFunction.NoAuthorizationNoBackend | tools/functions/web-view/index.ts:50-60 | without an Authorization header the answer does not depend on the backend |
| EdgeFunction.PrefixedApiPath | tools/functions/web-view/index.ts:20-48 | the API answers the same with or without the platform's prefix |
| EdgeFunction.AdvertisedApiRouteNotServed | tools/functions/web-view/index.ts:138-146 | the 404 body lists `/api/favorites`, yet a request for that path is itself answered with 404 |
| BuildConfig.ParseLine | build-config.js:19-23 | blank lines, comments, lines without `=` and lines with an empty key add nothing; a kept line gives the trimmed text before its first `=` and the trimmed rest |
| BuildConfig.KeysAreNonEmpty | build-config.js:19-23 | a kept line always has a non-empty key |
| BuildConfig.LineRoundTrip | build-config.js:21-23 | a trimmed `KEY=value` line reads back as its key and value, with later `=` signs kept in the value |
| BuildConfig.DefinedIffSet | build-config.js:18-26 | a variable is defined exactly when some kept line sets it |
| BuildConfig.LastEntryWins | build-config.js:23 | a variable holds the value of the last line that sets it |
| BuildConfig.NextLine | build-config.js:18-26 | a skipped line leaves the variables alone; a kept line sets its key and nothing else |
| BuildConfig.LoadEnvFile | build-config.js:9-29 | a missing file defines nothing; otherwise a variable is defined exactly when some line of the file sets it, and holds the value of the last such line |
| BuildConfig.ConfigValue | build-config.js:85-86 | a non-empty file value wins; else the process value; any non-empty result comes from one of the two |
| BuildConfig.GenerateConfig | build-config.js:81-86 | each setting is the file's value when that is non-empty, else the process environment's value, else the empty string |
| BuildConfig.CompleteIffBothSet | build-config.js:127-132 | the build warns about incomplete settings exactly when one of the two variables is non-empty neither in the file nor in the process environment |
| BuildConfig.LastFileLineWins | build-config.js:85-86 | a file whose last line for a setting gives it a non-empty value decides that setting, whatever the process environment holds |

## Left out

- Rendering and the browser platform are not modelled:
  - the DOM, markup and styles;
  - favicons and context menus;
  - the image context-menu handler (`handleImageContextMenu`);
  - export and import as JSON files;
  - the `alert` messages;
  - the notifications sent to open viewer tabs;
  - the message-passing plumbing.
  These only display or transport the data.
- The network, authentication and database calls of the hosted function are not modelled. Their replies are a parameter, and their exceptions (the catch-all 500) are not modelled.
- File reading and the writing of `supabase/config.js` by the build script are not modelled. The file's content is a parameter.
- The scroll and input events are not modelled; the viewer's 300 ms search debounce is one of them.
  - A filter that runs during the 100 ms "load more" delay would race with the delayed append. The model runs the two steps one after the other.
- JavaScript's Unicode case mapping is not modelled: lower-casing is ASCII only. Lengths count code points, not UTF-16 units.
- The exponent form of `String(n)` for numbers of 10^21 and more is not modelled, nor non-integer ids.
- `PopupList.SortNewestFirst`: records whose `timestamp` is missing or does not parse are not modelled. The source falls back to the id or compares NaN. Every record has an integer timestamp here.
- `categories` or `allTags` holding a non-array value is not modelled; only `favorites` can be malformed.
- `new URL` internals are not modelled: the parser is a parameter.
- `Popup.SaveFavorite`: a rejected save keeps the typed tags in the popup's selection, because popup/popup.js:297-298 merges them before the checks at 302-323. The model returns only the failure, so a later save is modelled from the selection the caller passes, not from one that still holds those tags.
- `WebView.ChangePageSize`: a page-size choice that `parseInt` cannot read (NaN) is not modelled. The size is a positive integer.
- `PopupList.CutAt`: `maxLength * 0.7` is compared as `10 * n > 7 * max`. This is exact, where the source compares floating-point numbers.
- The ISO formatting of dates is not modelled. A background `updatedAt` is kept as an uninterpreted text stamp.
- `Popup.SaveFavorite`: the id is `Date.now()` and the timestamp is the same instant. The source reads the clock twice.
- Special keys in the build script's variables (such as `__proto__` on a plain object) are not modelled.
- Background.ApplyPatch: the spread of `message.data` (background/background.js:181-185) also copies keys a favorite does not have onto the stored record. `Patch` carries only the record's own fields, so such extra keys are not modelled.

## Findings

| source | as written | input that shows it | evidently intended | confidence | as-written member | corrected member |
|---|---|---|---|---|---|---|
| popup/popup.js:848 | `this.allCategories.includes(...)` runs on a field the popup never assigns. The edit throws before it writes anything. | An edit of an existing record with the new category `news`. | The record takes the new category, and `categories` gains it. | high (read from the code; not executed) | Popup.UpdateFavoriteAsWritten, Popup.NewCategoryEditIsLost | Popup.UpdateFavorite, Popup.UpdateExtendsCategories |
| popup/popup.js:888 | `this.updateAllTags()` is not defined in the popup. The call throws after the favorites are written, so `allTags` never gains the edited tags. | An edit that selects the tag `new` on a record in a store whose `allTags` is empty. | `allTags` gains the record's new tags, as in a save. | high (read from the code; not executed) | Popup.UpdateFavoriteAsWritten, Popup.EditTagNotIndexed | Popup.UpdateFavorite, Popup.UpdateKeepsTagsIndexed |
| web-view.js:152-159 | In append mode the whole prefix `slice(0, endIndex)` is inserted after the existing cards, so the earlier pages appear twice. | 25 records, 20 per page, one "load more": 45 cards. | Only the new page, `slice(startIndex, endIndex)`, is appended: 25 cards. | high (read from the code; not executed) | WebView.DisplayAsWritten, WebView.AppendDuplicatesCards | WebView.Display, WebView.ScrollKeepsGridInSync |
