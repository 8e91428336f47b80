/** getCleanUrl, shared verbatim by the background script
    (background/background.js:344-351, also inlined at 45-52) and the content
    script (content/content.js:23-30). */
module Urls {
  import opened Results
  import opened Text

  /** The components of a parsed URL that the clean form keeps. */
  datatype UrlParts = UrlParts(origin: string, pathname: string)

  /** The platform's `new URL(text)`: `None` where the constructor throws. It is a
      parameter of the model, not something the model defines. */
  type UrlParser = string -> Option<UrlParts>

  /** The fallback branch: the text before the first '#', then before the first
      '?'. It is the longest prefix of `url` holding neither character. */
  function StripQueryAndFragment(url: string): (r: string)
    ensures StartsWith(url, r)
    ensures '#' !in r && '?' !in r
    ensures |r| == |url| || url[|r|] == '#' || url[|r|] == '?'
  {
    var beforeHash := Split(url, '#')[0];
    SplitHead(url, '#');
    SplitHead(beforeHash, '?');
    Split(beforeHash, '?')[0]
  }

  /** A text without '#' or '?' is its own fallback form. */
  lemma StripUnchanged(url: string)
    requires '#' !in url && '?' !in url
    ensures StripQueryAndFragment(url) == url
  {
    SplitHead(url, '#');
    SplitHead(url, '?');
  }

  /** Cleaning twice is cleaning once. */
  lemma StripIdempotent(url: string)
    ensures StripQueryAndFragment(StripQueryAndFragment(url)) == StripQueryAndFragment(url)
  {
    StripUnchanged(StripQueryAndFragment(url));
  }

  /** getCleanUrl: `origin + pathname` when the URL parses, the fallback otherwise. */
  function CleanUrl(parse: UrlParser, url: string): (r: string)
    ensures parse(url).Some? ==> r == parse(url).value.origin + parse(url).value.pathname
    ensures parse(url).None? ==> StartsWith(url, r) && '#' !in r && '?' !in r
    ensures parse(url).None? ==> |r| == |url| || url[|r|] == '#' || url[|r|] == '?'
  {
    match parse(url)
    case Some(parts) => parts.origin + parts.pathname
    case None => StripQueryAndFragment(url)
  }
}
