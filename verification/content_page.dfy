/** The content script's favorite indicator (content/content.js): the star
    marker on the page title, the indicator's tag summary and similar-URL note,
    and the re-check when a single-page site changes its URL. */
module ContentPage {
  import opened Results
  import opened Seqs
  import opened Text
  import opened Favorites
  import opened Urls
  import Background
  import Popup

  /** The title marker: U+2B50 and a space, two UTF-16 units. */
  const Marker: string := "\U{2B50} "

  /** updatePageTitle: prefix the marker on a favorite page that lacks it, strip
      the first two characters from a non-favorite page that has it. */
  function MarkTitle(title: string, isFavorite: bool): (r: string)
    ensures isFavorite ==> StartsWith(r, Marker)
    ensures isFavorite && !StartsWith(title, Marker) ==> r[|Marker|..] == title
    ensures !isFavorite && StartsWith(title, Marker) ==> Marker + r == title
    ensures isFavorite == StartsWith(title, Marker) ==> r == title
  {
    if isFavorite && !StartsWith(title, Marker) then Marker + title
    else if !isFavorite && StartsWith(title, Marker) then title[|Marker|..]
    else title
  }

  /** Marking an already marked title changes nothing. */
  lemma MarkIdempotent(title: string)
    ensures MarkTitle(MarkTitle(title, true), true) == MarkTitle(title, true)
  {
  }

  /** Unmarking a title that was marked restores it when it had no marker of its
      own, and unmarking an unmarked title changes nothing. */
  lemma UnmarkRestores(title: string)
    ensures !StartsWith(title, Marker) ==> MarkTitle(MarkTitle(title, true), false) == title
    ensures !StartsWith(title, Marker) ==> MarkTitle(title, false) == title
  {
    if !StartsWith(title, Marker) {
      assert (Marker + title)[|Marker|..] == title;
    }
  }

  /** Unmarking is not idempotent: a title carrying the marker twice loses one
      marker per call. */
  lemma UnmarkStripsOneMarker()
    ensures MarkTitle(Marker + Marker + "a", false) == Marker + "a"
    ensures MarkTitle(MarkTitle(Marker + Marker + "a", false), false) == "a"
  {
    assert (Marker + Marker + "a")[..2] == Marker;
    assert (Marker + Marker + "a")[2..] == Marker + "a";
    assert (Marker + "a")[..2] == Marker;
    assert (Marker + "a")[2..] == "a";
  }

  /** At most this many tags are named in the indicator. */
  const SummaryTags: nat := 3

  /** The indicator's tag line: the first three tags joined by `", "`, then
      ` +k` for the `k` tags left unnamed. */
  function TagSummary(tags: seq<string>): (r: string)
    ensures |tags| <= SummaryTags ==> r == Join(tags, ", ")
    ensures |tags| > SummaryTags ==>
      r == Join(tags[..SummaryTags], ", ") + " +" + Decimal(|tags| - SummaryTags)
  {
    var named := if |tags| <= SummaryTags then tags else tags[..SummaryTags];
    var more := if |tags| > SummaryTags then " +" + Decimal(|tags| - SummaryTags) else "";
    Join(named, ", ") + more
  }

  /** A tag as the popup stores it: non-empty, trimmed and free of commas. */
  predicate WellFormedTag(t: string) {
    t != "" && ',' !in t && Trim(t) == t
  }

  /** A space before a trimmed word is trimmed away. */
  lemma TrimLeadingSpace(t: string)
    requires t != "" && Trim(t) == t
    ensures Trim(" " + t) == t
  {
    var s := " " + t;
    assert !IsSpace(t[0]) && !IsSpace(t[|t| - 1]);
    assert s[1] == t[0] && s[|s| - 1] == t[|t| - 1];
    assert SpaceRunEnd(s, 1) == 1;
    assert SpaceRunEnd(s, 0) == 1;
    assert SpaceRunStart(s, 1, |s|) == |s|;
    assert s[1..|s|] == t;
  }

  /** Each element with one space in front. */
  function Spaced(ts: seq<string>): (r: seq<string>)
    ensures |r| == |ts| && forall k {:trigger r[k]} :: 0 <= k < |ts| ==> r[k] == " " + ts[k]
  {
    seq(|ts|, k requires 0 <= k < |ts| => " " + ts[k])
  }

  /** Joining with `", "` is joining the spaced elements with `","`. */
  lemma {:induction false} JoinSpaced(ts: seq<string>)
    requires |ts| >= 1
    ensures " " + Join(ts, ", ") == Join(Spaced(ts), ",")
    decreases |ts|
  {
    if |ts| > 1 {
      JoinSpaced(ts[1..]);
      assert Spaced(ts)[1..] == Spaced(ts[1..]);
    }
  }

  /** The pieces a `", "`-joined list splits into at its commas: the first tag,
      then each later tag with its leading space. */
  function CommaPieces(tags: seq<string>): (r: seq<string>)
    requires |tags| >= 1
    ensures |r| == |tags| && r[0] == tags[0]
    ensures forall k {:trigger r[k]} :: 1 <= k < |tags| ==> r[k] == " " + tags[k]
  {
    [tags[0]] + Spaced(tags[1..])
  }

  lemma PiecesTail(tags: seq<string>)
    requires |tags| > 1
    ensures CommaPieces(tags)[1..] == Spaced(tags[1..])
  {
  }

  lemma SpaceAfterComma(a: string, b: string)
    ensures a + ", " + b == a + "," + (" " + b)
  {
  }

  lemma JoinAtCommas(tags: seq<string>)
    requires |tags| >= 1
    ensures Join(tags, ", ") == Join(CommaPieces(tags), ",")
  {
    if |tags| > 1 {
      JoinSpaced(tags[1..]);
      PiecesTail(tags);
      SpaceAfterComma(tags[0], Join(tags[1..], ", "));
    }
  }

  lemma PiecesTrimToTags(tags: seq<string>)
    requires |tags| >= 1
    requires forall k :: 0 <= k < |tags| ==> WellFormedTag(tags[k])
    ensures forall k :: 0 <= k < |tags| ==> ',' !in CommaPieces(tags)[k]
    ensures Popup.TrimAll(CommaPieces(tags)) == tags
  {
    var parts := CommaPieces(tags);
    forall k | 0 <= k < |tags| ensures ',' !in parts[k] && Trim(parts[k]) == tags[k] {
      if k > 0 {
        TrimLeadingSpace(tags[k]);
      }
    }
  }

  /** Reading a `", "`-joined list of well-formed tags back through the popup's
      tag box gives the same tags. */
  lemma JoinParsesBack(tags: seq<string>)
    requires |tags| >= 1
    requires forall k :: 0 <= k < |tags| ==> WellFormedTag(tags[k])
    ensures Popup.ParseTagInput(Join(tags, ", ")) == tags
  {
    var parts := CommaPieces(tags);
    JoinAtCommas(tags);
    PiecesTrimToTags(tags);
    SplitJoin(parts, ',');
    assert Split(Join(tags, ", "), ',') == parts;
    FilterKeepsAll(Popup.NonBlank, tags);
  }

  /** The tag line reads back as what it summarises: the named tags through the
      popup's tag parser, then ` +` and a number that parses back to the count
      of the others. */
  lemma SummaryReadsBack(tags: seq<string>)
    requires |tags| >= 1
    requires forall k :: 0 <= k < |tags| ==> WellFormedTag(tags[k])
    ensures |tags| <= SummaryTags ==> Popup.ParseTagInput(TagSummary(tags)) == tags
    ensures |tags| > SummaryTags ==>
      var named := Join(tags[..SummaryTags], ", ");
      && Popup.ParseTagInput(named) == tags[..SummaryTags]
      && exists count :: TagSummary(tags) == named + " +" + count && ParseInt(count) == Some(|tags| - SummaryTags)
  {
    if |tags| <= SummaryTags {
      JoinParsesBack(tags);
    } else {
      HeadParsesBack(tags);
      CountReadsBack(tags);
    }
  }

  lemma HeadParsesBack(tags: seq<string>)
    requires |tags| > SummaryTags
    requires forall k :: 0 <= k < |tags| ==> WellFormedTag(tags[k])
    ensures Popup.ParseTagInput(Join(tags[..SummaryTags], ", ")) == tags[..SummaryTags]
  {
    var head := tags[..SummaryTags];
    assert forall k :: 0 <= k < |head| ==> head[k] == tags[k];
    JoinParsesBack(head);
  }

  lemma CountReadsBack(tags: seq<string>)
    requires |tags| > SummaryTags
    ensures exists count :: TagSummary(tags) == Join(tags[..SummaryTags], ", ") + " +" + count
                            && ParseInt(count) == Some(|tags| - SummaryTags)
  {
    var n := |tags| - SummaryTags;
    DecimalRoundTrip(n);
    assert TagSummary(tags) == Join(tags[..SummaryTags], ", ") + " +" + Decimal(n);
  }

  /** What the indicator shows besides its fixed header. */
  datatype Indicator = Indicator(category: Option<string>, tagLine: Option<string>,
                                 hasDetails: bool, similarNote: bool)

  /** showIndicator's content for a status. */
  function IndicatorFor(status: Background.Status): (r: Indicator)
    ensures r.similarNote <==> !status.exactMatch
    ensures r.hasDetails <==> status.favoriteData.Some?
    ensures r.category.Some? <==> status.favoriteData.Some? && Present(status.favoriteData.value.category)
    ensures r.category.Some? ==> Some(r.category.value) == status.favoriteData.value.category
    ensures r.tagLine.Some? <==> status.favoriteData.Some? && |status.favoriteData.value.tags| > 0
    ensures r.tagLine.Some? ==> r.tagLine.value == TagSummary(status.favoriteData.value.tags)
  {
    match status.favoriteData
    case None => Indicator(None, None, false, !status.exactMatch)
    case Some(f) =>
      Indicator(if Present(f.category) then f.category else None,
                if |f.tags| > 0 then Some(TagSummary(f.tags)) else None,
                true, !status.exactMatch)
  }

  /** For a status the background computed, the "similar URL" note appears
      exactly when no stored record has the page's own URL; on a favorite page
      it then stands for a record whose clean URL matches. */
  lemma SimilarNoteIffNoExactRecord(slot: Slot, target: string, parse: UrlParser)
    requires slot != Malformed
    ensures var st, xs := Background.CheckFavoriteStatus(slot, target, parse).value, ReadFavorites(slot).value;
      IndicatorFor(st).similarNote <==> forall f :: f in xs ==> f.url != target
    ensures var st, xs := Background.CheckFavoriteStatus(slot, target, parse).value, ReadFavorites(slot).value;
      st.isFavorite && IndicatorFor(st).similarNote ==>
        exists f :: f in xs && f.url != target && CleanUrl(parse, f.url) == CleanUrl(parse, target)
  {
  }

  /** The page as the content script sees it. */
  datatype PageState = PageState(currentUrl: string, cleanUrl: string, title: string,
                                 indicator: Option<Indicator>)

  /** The status the script acts on: the background's answer, or "not a favorite"
      when the request failed. */
  function StatusOf(answer: Result<Background.Status, Background.HandlerError>): (s: Background.Status)
    ensures answer.Failure? ==> !s.isFavorite && !s.exactMatch && !s.cleanMatch && s.favoriteData.None?
    ensures answer.Success? ==> s == answer.value
  {
    match answer
    case Success(st) => st
    case Failure(_) => Background.Status(false, false, false, None)
  }

  /** checkAndShowIndicator: show the indicator and mark the title for a favorite,
      hide it and unmark the title otherwise. */
  function CheckAndShow(p: PageState, status: Background.Status): (r: PageState)
    ensures r.indicator.Some? <==> status.isFavorite
    ensures r.indicator.Some? ==> r.indicator.value == IndicatorFor(status)
    ensures r.title == MarkTitle(p.title, status.isFavorite)
    ensures r.currentUrl == p.currentUrl && r.cleanUrl == p.cleanUrl
  {
    if status.isFavorite then p.(indicator := Some(IndicatorFor(status)), title := MarkTitle(p.title, true))
    else p.(indicator := None, title := MarkTitle(p.title, false))
  }

  /** onUrlChange: a new URL is recorded with its clean form and re-checked; the
      same URL changes nothing. `answer` is the background's reply for the new URL. */
  function OnUrlChange(p: PageState, newUrl: string, parse: UrlParser,
                       answer: Result<Background.Status, Background.HandlerError>): (r: PageState)
    ensures newUrl == p.currentUrl ==> r == p
    ensures newUrl != p.currentUrl ==>
      && r.currentUrl == newUrl && r.cleanUrl == CleanUrl(parse, newUrl)
      && (r.indicator.Some? <==> StatusOf(answer).isFavorite)
  {
    if newUrl == p.currentUrl then p
    else CheckAndShow(p.(currentUrl := newUrl, cleanUrl := CleanUrl(parse, newUrl)), StatusOf(answer))
  }

  /** A second notification of the same URL does nothing, whatever the reply. */
  lemma UrlChangeSettles(p: PageState, newUrl: string, parse: UrlParser,
                         a: Result<Background.Status, Background.HandlerError>,
                         b: Result<Background.Status, Background.HandlerError>)
    ensures var q := OnUrlChange(p, newUrl, parse, a);
      OnUrlChange(q, newUrl, parse, b) == q
  {
  }
}
