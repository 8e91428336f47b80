/** The popup's list view (popup/popup.js): the newest-first order, the ten
    records it shows, its category and search filter, and the title truncation
    of each entry. */
module PopupList {
  import opened Results
  import opened Seqs
  import opened Text
  import opened Favorites

  /** The popup shows at most this many records (popup/popup.js:535, 716). */
  const ShownLimit: nat := 10

  /** Newest first: timestamps never increase along the list. */
  predicate NewestFirst(s: seq<Favorite>) {
    forall i, j :: 0 <= i < j < |s| ==> s[i].timestamp >= s[j].timestamp
  }

  /** Every record of a newest-first list is at most as new as its head. */
  lemma HeadIsNewest(s: seq<Favorite>, y: Favorite)
    requires NewestFirst(s) && |s| > 0 && y in s
    ensures y.timestamp <= s[0].timestamp
  {
    var m :| 0 <= m < |s| && s[m] == y;
  }

  /** Places `x` after every record at least as new as it, so that among equal
      timestamps the earlier-placed record stays first. */
  function Insert(x: Favorite, s: seq<Favorite>): (r: seq<Favorite>)
    requires NewestFirst(s)
    ensures NewestFirst(r)
    ensures multiset(r) == multiset(s) + multiset{x}
    decreases |s|
  {
    if |s| == 0 then [x]
    else if s[0].timestamp >= x.timestamp then
      var rest := Insert(x, s[1..]);
      assert s == [s[0]] + s[1..];
      assert forall k :: 0 <= k < |rest| ==> rest[k].timestamp <= s[0].timestamp by {
        forall k | 0 <= k < |rest| ensures rest[k].timestamp <= s[0].timestamp {
          assert rest[k] in multiset(rest);
          if rest[k] != x {
            assert rest[k] in multiset(s[1..]);
            HeadIsNewest(s, rest[k]);
          }
        }
      }
      [s[0]] + rest
    else [x] + s
  }

  /** The comparator sort `b.timestamp - a.timestamp`: a newest-first
      rearrangement of the list. `Array.prototype.sort` is stable, so records
      with equal timestamps keep their relative order. */
  function SortNewestFirst(xs: seq<Favorite>): (r: seq<Favorite>)
    ensures NewestFirst(r)
    ensures multiset(r) == multiset(xs)
    ensures forall t :: WithTime(r, t) == WithTime(xs, t)
    decreases |xs|
  {
    if |xs| == 0 then []
    else
      var init, y := xs[..|xs| - 1], xs[|xs| - 1];
      assert xs == init + [y];
      var sorted := SortNewestFirst(init);
      SortStep(y, sorted, init);
      Insert(y, sorted)
  }

  /** The test `f.timestamp === t`. */
  function SameTime(t: int): Favorite -> bool {
    (f: Favorite) => f.timestamp == t
  }

  /** The records of `s` stamped `t`, in their order in `s`. */
  function WithTime(s: seq<Favorite>, t: int): seq<Favorite> {
    Filter(SameTime(t), s)
  }

  /** Inserting `x` into a sorted list that keeps the ties of `init` in order
      gives a list that keeps the ties of `init + [y]` in order. */
  lemma SortStep(y: Favorite, sorted: seq<Favorite>, init: seq<Favorite>)
    requires NewestFirst(sorted)
    requires forall t :: WithTime(sorted, t) == WithTime(init, t)
    ensures forall t :: WithTime(Insert(y, sorted), t) == WithTime(init + [y], t)
  {
    forall t ensures WithTime(Insert(y, sorted), t) == WithTime(init + [y], t) {
      InsertKeepsTies(y, sorted, t);
      FilterSnoc(SameTime(t), init, y);
    }
  }

  /** Insert puts `x` after every record stamped like it. */
  lemma {:induction false} InsertKeepsTies(x: Favorite, s: seq<Favorite>, t: int)
    requires NewestFirst(s)
    ensures WithTime(Insert(x, s), t) == WithTime(s, t) + (if SameTime(t)(x) then [x] else [])
    decreases |s|
  {
    if |s| == 0 {
      FilterSnoc(SameTime(t), [], x);
      assert [] + [x] == [x];
    } else if s[0].timestamp >= x.timestamp {
      InsertKeepsTies(x, s[1..], t);
      TiesBehindHead(x, s, t);
    } else {
      TiesInFront(x, s, t);
    }
  }

  /** When `x` goes after the head, the head's tie class grows at the front. */
  lemma TiesBehindHead(x: Favorite, s: seq<Favorite>, t: int)
    requires NewestFirst(s) && |s| > 0 && s[0].timestamp >= x.timestamp
    requires WithTime(Insert(x, s[1..]), t) == WithTime(s[1..], t) + (if SameTime(t)(x) then [x] else [])
    ensures WithTime(Insert(x, s), t) == WithTime(s, t) + (if SameTime(t)(x) then [x] else [])
  {
    var tail: seq<Favorite> := if SameTime(t)(x) then [x] else [];
    var rest := Insert(x, s[1..]);
    var head: seq<Favorite> := if SameTime(t)(s[0]) then [s[0]] else [];
    assert Insert(x, s) == [s[0]] + rest;
    FilterCons(SameTime(t), s[0], rest);
    FilterHead(SameTime(t), s);
    ConcatAssoc(head, WithTime(s[1..], t), tail);
  }

  /** When `x` is newer than every record, no record shares its timestamp. */
  lemma TiesInFront(x: Favorite, s: seq<Favorite>, t: int)
    requires NewestFirst(s) && |s| > 0 && s[0].timestamp < x.timestamp
    ensures WithTime(Insert(x, s), t) == WithTime(s, t) + (if SameTime(t)(x) then [x] else [])
  {
    var tail: seq<Favorite> := if SameTime(t)(x) then [x] else [];
    assert Insert(x, s) == [x] + s;
    FilterCons(SameTime(t), x, s);
    if SameTime(t)(x) {
      forall k | 0 <= k < |s| ensures !SameTime(t)(s[k]) {
        assert s[0].timestamp >= s[k].timestamp;
      }
      FilterEmpty(SameTime(t), s);
    }
  }

  /** A record no newer than any in the list goes to its end. */
  lemma {:induction false} InsertOldest(x: Favorite, s: seq<Favorite>)
    requires NewestFirst(s)
    requires forall k :: 0 <= k < |s| ==> s[k].timestamp >= x.timestamp
    ensures Insert(x, s) == s + [x]
    decreases |s|
  {
    if |s| > 0 {
      InsertOldest(x, s[1..]);
      assert s == [s[0]] + s[1..];
    }
  }

  /** Sorting a list that is already newest first leaves it as it is: records
      with equal timestamps are not reordered. */
  lemma {:induction false} SortKeepsSorted(xs: seq<Favorite>)
    requires NewestFirst(xs)
    ensures SortNewestFirst(xs) == xs
    decreases |xs|
  {
    if |xs| > 0 {
      var init := xs[..|xs| - 1];
      SortKeepsSorted(init);
      InsertOldest(xs[|xs| - 1], init);
      assert init + [xs[|xs| - 1]] == xs;
    }
  }

  /** `slice(0, 10)`. */
  function Take(s: seq<Favorite>, n: nat): (r: seq<Favorite>)
    ensures |r| == Min(n, |s|) && r == s[..|r|]
  {
    if |s| <= n then s else s[..n]
  }

  /** loadFavorites: the whole list sorted newest first, and the ten newest shown.
      `None` when the stored value is not an array and `sort` throws. */
  function LoadFavorites(slot: Slot): (r: Option<(seq<Favorite>, seq<Favorite>)>)
    ensures r.None? <==> slot == Malformed
    ensures r.Some? ==>
      var (all, shown) := r.value;
      && NewestFirst(all) && multiset(all) == multiset(ReadFavorites(slot).value)
      && |shown| == Min(ShownLimit, |all|) && shown == all[..|shown|]
  {
    match ReadFavorites(slot)
    case None => None
    case Some(xs) =>
      var all := SortNewestFirst(xs);
      Some((all, Take(all, ShownLimit)))
  }

  /** No shown record is older than one left out. */
  lemma ShownAreNewest(slot: Slot)
    requires slot != Malformed
    ensures var (all, shown) := LoadFavorites(slot).value;
      forall i, j :: 0 <= i < |shown| <= j < |all| ==> shown[i].timestamp >= all[j].timestamp
  {
  }

  /** The popup's search test: the lower-cased title or some lower-cased tag
      contains the lower-cased term. */
  predicate PopupHit(f: Favorite, term: string) {
    || Contains(Lower(f.title), Lower(term))
    || exists k :: 0 <= k < |f.tags| && Contains(Lower(f.tags[k]), Lower(term))
  }

  /** The popup's category test: the selected category, if any, is strictly
      equal to the record's. */
  predicate InCategory(f: Favorite, category: string) {
    category == "" || f.category == Some(category)
  }

  /** filterFavorites before its cut to ten: the category filter, then the
      search filter when the term is not empty. */
  function PopupFilter(all: seq<Favorite>, term: string, category: string): (r: seq<Favorite>)
    ensures IsSubseq(r, all)
    ensures forall f :: f in r <==> f in all && InCategory(f, category) && (term == "" || PopupHit(f, term))
    ensures forall f :: multiset(r)[f] == (if InCategory(f, category) && (term == "" || PopupHit(f, term))
                                           then multiset(all)[f] else 0)
  {
    SubseqRefl(all);
    var byCategory := if category != "" then Filter((f: Favorite) => f.category == Some(category), all) else all;
    if term != "" then
      var r := Filter((f: Favorite) => PopupHit(f, term), byCategory);
      SubseqTrans(r, byCategory, all);
      r
    else byCategory
  }

  /** With neither a category nor a term the filter keeps the whole list. */
  lemma PopupFilterNoCriteria(all: seq<Favorite>)
    ensures PopupFilter(all, "", "") == all
  {
  }

  /** The list filterFavorites shows: the first ten records that pass. */
  function PopupShown(all: seq<Favorite>, term: string, category: string): (r: seq<Favorite>)
    ensures |r| <= ShownLimit
    ensures IsSubseq(r, all)
    ensures forall f :: f in r ==> InCategory(f, category) && (term == "" || PopupHit(f, term))
    ensures var p := PopupFilter(all, term, category); |r| == Min(ShownLimit, |p|) && r == p[..|r|]
  {
    var filtered := PopupFilter(all, term, category);
    var r := Take(filtered, ShownLimit);
    PrefixIsSubseq(r, filtered);
    SubseqTrans(r, filtered, all);
    r
  }

  lemma {:induction false} PrefixIsSubseq(a: seq<Favorite>, b: seq<Favorite>)
    requires |a| <= |b| && a == b[..|a|]
    ensures IsSubseq(a, b)
    decreases |a|
  {
    if |a| > 0 {
      PrefixIsSubseq(a[1..], b[1..]);
    }
  }

  /** The scripts the popup cuts at the limit without looking for a word break:
      hiragana, katakana and the CJK unified ideographs U+4E00-U+9FAF. */
  predicate IsJapanese(c: char) {
    || ('\U{3040}' <= c <= '\U{309F}')
    || ('\U{30A0}' <= c <= '\U{30FF}')
    || ('\U{4E00}' <= c <= '\U{9FAF}')
  }

  predicate HasJapanese(s: string) {
    exists k :: 0 <= k < |s| && IsJapanese(s[k])
  }

  /** `lastIndexOf(c)`: the last position of `c`, or -1. */
  function LastIndexOf(s: string, c: char): (i: int)
    ensures -1 <= i < |s|
    ensures i >= 0 ==> s[i] == c
    ensures forall k :: i < k < |s| ==> s[k] != c
    decreases |s|
  {
    if |s| == 0 then -1
    else if s[|s| - 1] == c then |s| - 1
    else LastIndexOf(s[..|s| - 1], c)
  }

  /** Where truncateTitle cuts a title longer than `max`: at `max`, or at the
      last space of the first `max` characters when it lies beyond 70% of `max`
      and the title has no Japanese character. */
  function CutAt(title: string, max: nat): (n: nat)
    requires |title| > max
    ensures n <= max
    ensures n < max ==> title[n] == ' ' && 10 * n > 7 * max && !HasJapanese(title)
    ensures n < max ==> forall k :: n < k < max ==> title[k] != ' '
    ensures n == max ==> HasJapanese(title) || forall k :: 7 * max < 10 * k && k < max ==> title[k] != ' '
  {
    var lastSpace := LastIndexOf(title[..max], ' ');
    if HasJapanese(title) then max
    else if 10 * lastSpace > 7 * max then lastSpace
    else max
  }

  /** truncateTitle: `''` for an empty title, the title itself when it fits, and
      otherwise its first `CutAt` characters followed by `...`. */
  function TruncateTitle(title: string, max: nat): (r: string)
    ensures title == "" ==> r == ""
    ensures 0 < |title| <= max ==> r == title
    ensures |title| > max ==>
      && |r| >= 3 && r[|r| - 3..] == "..."
      && StartsWith(title, r[..|r| - 3]) && |r| - 3 == CutAt(title, max)
  {
    if title == "" then ""
    else if |title| <= max then title
    else title[..CutAt(title, max)] + "..."
  }

  /** A truncated title is never more than three characters longer than `max`,
      and keeps at least seven tenths of the allowed characters. */
  lemma TruncatedLength(title: string, max: nat)
    requires |title| > max
    ensures |TruncateTitle(title, max)| <= max + 3
    ensures 10 * (|TruncateTitle(title, max)| - 3) > 7 * max || |TruncateTitle(title, max)| - 3 == max
  {
  }
}
