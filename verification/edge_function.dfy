/** The hosted web-view function (tools/functions/web-view/index.ts): the path
    it normalises, the route and status it picks, and the data its API route
    returns. The authentication service and the database are parameters: their
    replies for the request are given as a `Backend`. */
module EdgeFunction {
  import opened Results
  import opened Seqs
  import opened Text

  /** The prefix the hosting platform puts before the function's own path. */
  const FunctionsPrefix: string := "/functions/v1/"

  /** The API route, after normalisation. */
  const ApiPath: string := "/favorites/api/favorites"

  /** The routes the 404 body advertises. */
  const AdvertisedRoutes: seq<string> := ["/", "/favorites", "/api/favorites"]

  /** The end of the run of non-`/` characters starting at `i`. */
  function SegmentEnd(s: string, i: nat): (j: nat)
    requires i <= |s|
    ensures i <= j <= |s|
    ensures forall k :: i <= k < j ==> s[k] != '/'
    ensures j == |s| || s[j] == '/'
    decreases |s| - i
  {
    if i == |s| || s[i] == '/' then i else SegmentEnd(s, i + 1)
  }

  /** `/^\/functions\/v1\/[^\/]+/` matches at the start of `p`. */
  predicate HasFunctionPrefix(p: string) {
    StartsWith(p, FunctionsPrefix) && |p| > |FunctionsPrefix| && p[|FunctionsPrefix|] != '/'
  }

  /** `p` is the prefix, a non-empty segment without `/` ending at `j`, then a
      rest that is empty or starts with `/`. */
  predicate SegmentEndsAt(p: string, j: int) {
    && StartsWith(p, FunctionsPrefix) && |FunctionsPrefix| < j <= |p|
    && (forall k :: |FunctionsPrefix| <= k < j ==> p[k] != '/')
    && (j == |p| || p[j] == '/')
  }

  /** The normalised path: the pathname without its leading
      `/functions/v1/<segment>`, or `/` when nothing is left. */
  function NormalizePath(p: string): (r: string)
    ensures r != ""
    ensures !HasFunctionPrefix(p) ==> r == if p == "" then "/" else p
    ensures HasFunctionPrefix(p) ==> exists j :: SegmentEndsAt(p, j) && r == if j == |p| then "/" else p[j..]
  {
    var stripped :=
      if HasFunctionPrefix(p) then
        var j := SegmentEnd(p, |FunctionsPrefix|);
        assert SegmentEndsAt(p, j);
        p[j..]
      else p;
    if stripped == "" then "/" else stripped
  }

  /** Putting the prefix and a segment in front of a path and normalising gives
      the path back. */
  lemma NormalizeRoundTrip(segment: string, rest: string)
    requires segment != "" && '/' !in segment
    requires rest == "" || rest[0] == '/'
    ensures NormalizePath(FunctionsPrefix + segment + rest) == if rest == "" then "/" else rest
  {
    var p := FunctionsPrefix + segment + rest;
    var n := |FunctionsPrefix|;
    var e := n + |segment|;
    assert p[..n] == FunctionsPrefix;
    assert p[n] == segment[0];
    forall k | n <= k < e ensures p[k] != '/' {
      assert p[k] == segment[k - n];
    }
    assert e < |p| ==> p[e] == rest[0];
    SegmentEndUnique(p, n, e);
    assert p[e..] == rest;
  }

  /** The run of non-`/` characters ends at the first `/` or the end. */
  lemma SegmentEndUnique(s: string, i: nat, j: nat)
    requires i <= j <= |s|
    requires forall k :: i <= k < j ==> s[k] != '/'
    requires j == |s| || s[j] == '/'
    ensures SegmentEnd(s, i) == j
  {
  }

  /** Only one prefix is stripped: a doubled prefix leaves the second one. */
  lemma StripsOnePrefix()
    ensures NormalizePath("/functions/v1/a/functions/v1/b") == "/functions/v1/b"
  {
    assert "/functions/v1/a/functions/v1/b" == FunctionsPrefix + "a" + "/functions/v1/b";
    NormalizeRoundTrip("a", "/functions/v1/b");
  }

  /** A pathname that starts with `/` normalises to a path that starts with `/`;
      URL pathnames always do, so the route test for `favorites` without a slash
      never succeeds. */
  lemma SlashIsKept(p: string)
    requires |p| > 0 && p[0] == '/'
    ensures NormalizePath(p)[0] == '/'
    ensures NormalizePath(p) != "favorites"
  {
  }

  /** The request as the function reads it. */
  datatype Request = Request(verb: string, pathname: string, authorization: Option<string>)

  /** One row of the `favorites` table. */
  datatype Row = Row(id: int, title: string, url: string, image_url: Option<string>,
                     category: Option<string>, tags: Option<seq<string>>, created_at: string)

  /** What the authentication service and the two queries answer for the request's
      token: the user (or the error message), and each query's rows or error message. */
  datatype Backend = Backend(
    userError: Option<string>,
    user: Option<string>,
    favorites: Result<Option<seq<Row>>, string>,
    categories: Result<Option<seq<string>>, string>)

  /** A record as the API returns it. */
  datatype Formatted = Formatted(id: string, title: string, url: string, imageUrl: Option<string>,
                                 category: Option<string>, tags: seq<string>, timestamp: string)

  datatype Body =
    | Text(text: string)
    | NoBody
    | ErrorJson(error: string, details: Option<string>)
    | NotFoundJson(path: string, availableRoutes: seq<string>)
    | DataJson(favorites: seq<Formatted>, categories: seq<string>, allTags: seq<string>)

  datatype Response = Response(status: int, body: Body, headers: map<string, string>)

  /** The CORS headers every response carries. */
  function CorsHeaders(): map<string, string> {
    map["Access-Control-Allow-Origin" := "*",
        "Access-Control-Allow-Headers" := "authorization, x-client-info, apikey, content-type"]
  }

  function JsonHeaders(): map<string, string> {
    CorsHeaders()["Content-Type" := "application/json"]
  }

  /** The headers hold every CORS header with its value. */
  predicate CorsIn(h: map<string, string>) {
    && "Access-Control-Allow-Origin" in h
    && h["Access-Control-Allow-Origin"] == CorsHeaders()["Access-Control-Allow-Origin"]
    && "Access-Control-Allow-Headers" in h
    && h["Access-Control-Allow-Headers"] == CorsHeaders()["Access-Control-Allow-Headers"]
  }

  /** The response carries every CORS header with its value. */
  predicate HasCors(r: Response) {
    CorsIn(r.headers)
  }

  /** The three header sets the function answers with all carry the CORS headers. */
  lemma HeaderSetsCarryCors(location: string)
    ensures CorsIn(CorsHeaders()) && CorsIn(JsonHeaders()) && CorsIn(CorsHeaders()["Location" := location])
  {
  }

  /** The row mapping of the API route: the id as decimal text, `image_url` as
      `imageUrl`, `created_at` as `timestamp` and missing tags as no tags. */
  function FormatRow(row: Row): (f: Formatted)
    ensures ParseInt(f.id) == Some(row.id)
    ensures f.imageUrl == row.image_url && f.timestamp == row.created_at
    ensures f.title == row.title && f.url == row.url && f.category == row.category
    ensures row.tags.Some? ==> f.tags == row.tags.value
    ensures row.tags.None? ==> f.tags == []
  {
    DecimalRoundTrip(row.id);
    Formatted(Decimal(row.id), row.title, row.url, row.image_url, row.category,
              if row.tags.Some? then row.tags.value else [], row.created_at)
  }

  /** Distinct rows keep distinct id texts. */
  lemma FormatKeepsIdsApart(a: Row, b: Row)
    requires a.id != b.id
    ensures FormatRow(a).id != FormatRow(b).id
  {
    if FormatRow(a).id == FormatRow(b).id {
      DecimalInjective(a.id, b.id);
    }
  }

  function FormatRows(rows: seq<Row>): (fs: seq<Formatted>)
    ensures |fs| == |rows| && forall i :: 0 <= i < |rows| ==> fs[i] == FormatRow(rows[i])
  {
    seq(|rows|, i requires 0 <= i < |rows| => FormatRow(rows[i]))
  }

  /** `flatMap(fav => fav.tags)`: every tag of every record, in order. */
  function FlatTags(fs: seq<Formatted>): (r: seq<string>)
    ensures forall t :: t in r <==> exists i :: 0 <= i < |fs| && t in fs[i].tags
    decreases |fs|
  {
    if |fs| == 0 then []
    else
      var rest := FlatTags(fs[1..]);
      assert forall i :: 1 <= i < |fs| ==> fs[i] == fs[1..][i - 1];
      fs[0].tags + rest
  }

  /** `[...new Set(...)]` over all tags. */
  function AllTags(fs: seq<Formatted>): seq<string> {
    Dedup(FlatTags(fs))
  }

  /** The API's tag list names every tag of every record once, in the order of
      its first occurrence. */
  lemma AllTagsDistinct(fs: seq<Formatted>)
    ensures NoDup(AllTags(fs))
    ensures forall t :: t in AllTags(fs) <==> exists i :: 0 <= i < |fs| && t in fs[i].tags
    ensures forall i, j :: 0 <= i < j < |AllTags(fs)| ==>
      Seqs.IndexOf(FlatTags(fs), AllTags(fs)[i]) < Seqs.IndexOf(FlatTags(fs), AllTags(fs)[j])
  {
    DedupFirstOccurrenceOrder(FlatTags(fs));
  }

  /** The first non-empty message of the two query errors
      (`favError?.message || catError?.message`). */
  function DatabaseDetails(b: Backend): (d: Option<string>)
    ensures b.favorites.Failure? && b.favorites.error != "" ==> d == Some(b.favorites.error)
    ensures !(b.favorites.Failure? && b.favorites.error != "") ==>
      d == if b.categories.Failure? then Some(b.categories.error) else None
  {
    if b.favorites.Failure? && b.favorites.error != "" then Some(b.favorites.error)
    else if b.categories.Failure? then Some(b.categories.error)
    else None
  }

  /** The API route: 401 without a truthy Authorization header or an
      authenticated user, 500 on a query error, otherwise the formatted records,
      the category names and the distinct tags. */
  function ApiResponse(authorization: Option<string>, b: Backend): (r: Response)
    ensures authorization.None? || authorization.value == "" ==>
      r == Response(401, ErrorJson("Authorization required", None), JsonHeaders())
    ensures r.status == 200 <==>
      && authorization.Some? && authorization.value != ""
      && b.userError.None? && b.user.Some?
      && b.favorites.Success? && b.categories.Success?
    ensures r.status == 200 ==>
      && r.body.DataJson?
      && r.body.favorites == FormatRows(if b.favorites.value.Some? then b.favorites.value.value else [])
      && r.body.categories == (if b.categories.value.Some? then b.categories.value.value else [])
      && r.body.allTags == AllTags(r.body.favorites)
    ensures authorization.Some? && authorization.value != "" && (b.userError.Some? || b.user.None?) ==>
      r == Response(401, ErrorJson("User not authenticated", b.userError), JsonHeaders())
    ensures authorization.Some? && authorization.value != "" && b.userError.None? && b.user.Some?
            && (b.favorites.Failure? || b.categories.Failure?) ==>
      r == Response(500, ErrorJson("Database error", DatabaseDetails(b)), JsonHeaders())
    ensures r.status in {200, 401, 500}
  {
    if authorization.None? || authorization.value == "" then
      Response(401, ErrorJson("Authorization required", None), JsonHeaders())
    else if b.userError.Some? || b.user.None? then
      Response(401, ErrorJson("User not authenticated", b.userError), JsonHeaders())
    else if b.favorites.Failure? || b.categories.Failure? then
      Response(500, ErrorJson("Database error", DatabaseDetails(b)), JsonHeaders())
    else
      var fs := FormatRows(if b.favorites.value.Some? then b.favorites.value.value else []);
      var names := if b.categories.value.Some? then b.categories.value.value else [];
      Response(200, DataJson(fs, names, AllTags(fs)), JsonHeaders())
  }

  /** The paths that redirect to the viewer page. */
  predicate IsViewerPath(path: string) {
    path == "/" || path == "/favorites" || path == "favorites"
  }

  /** The function's answer to a request. `webViewUrl` is the
      PUBLIC_WEBVIEW_URL setting. */
  function Handle(req: Request, webViewUrl: Option<string>, b: Backend): (r: Response)
    ensures req.verb == "OPTIONS" ==> r == Response(200, Text("ok"), CorsHeaders())
    ensures req.verb != "OPTIONS" ==>
      var path := NormalizePath(req.pathname);
      && (req.verb == "GET" && IsViewerPath(path) ==>
            var target := if webViewUrl.Some? then Trim(webViewUrl.value) else "";
            && (target == "" ==> r.status == 500)
            && (target != "" ==> r.status == 302 && "Location" in r.headers && r.headers["Location"] == target))
      && (req.verb == "GET" && path == ApiPath ==> r == ApiResponse(req.authorization, b))
      && (!(req.verb == "GET" && (IsViewerPath(path) || path == ApiPath)) ==>
            r == Response(404, NotFoundJson(path, AdvertisedRoutes), JsonHeaders()))
  {
    if req.verb == "OPTIONS" then Response(200, Text("ok"), CorsHeaders())
    else
      var path := NormalizePath(req.pathname);
      if req.verb == "GET" && IsViewerPath(path) then
        var target := if webViewUrl.Some? then Trim(webViewUrl.value) else "";
        if target == "" then
          Response(500, ErrorJson("Missing configuration", None), JsonHeaders())
        else Response(302, NoBody, CorsHeaders()["Location" := target])
      else if req.verb == "GET" && path == ApiPath then ApiResponse(req.authorization, b)
      else Response(404, NotFoundJson(path, AdvertisedRoutes), JsonHeaders())
  }

  /** Every answer carries the CORS headers. */
  lemma EveryResponseHasCors(req: Request, webViewUrl: Option<string>, b: Backend)
    ensures HasCors(Handle(req, webViewUrl, b))
  {
    var target := if webViewUrl.Some? then Trim(webViewUrl.value) else "";
    HeaderSetsCarryCors(target);
    var r := Handle(req, webViewUrl, b);
    assert r.headers in {CorsHeaders(), JsonHeaders(), CorsHeaders()["Location" := target]} by {
      assert ApiResponse(req.authorization, b).headers == JsonHeaders();
    }
  }

  /** Every answer has one of the five statuses the function uses. */
  lemma StatusesUsed(req: Request, webViewUrl: Option<string>, b: Backend)
    ensures Handle(req, webViewUrl, b).status in {200, 302, 401, 404, 500}
  {
  }

  /** Without a truthy Authorization header the answer does not depend on what
      the backend would say: it is decided before any backend call. */
  lemma NoAuthorizationNoBackend(req: Request, webViewUrl: Option<string>, b1: Backend, b2: Backend)
    requires req.authorization.None? || req.authorization.value == ""
    ensures Handle(req, webViewUrl, b1) == Handle(req, webViewUrl, b2)
  {
  }

  /** The API answers the same with or without the platform's prefix. */
  lemma PrefixedApiPath(segment: string, auth: Option<string>, webViewUrl: Option<string>, b: Backend)
    requires segment != "" && '/' !in segment
    ensures Handle(Request("GET", FunctionsPrefix + segment + ApiPath, auth), webViewUrl, b)
         == Handle(Request("GET", ApiPath, auth), webViewUrl, b)
  {
    NormalizeRoundTrip(segment, ApiPath);
  }

  /** The 404 body advertises `/api/favorites`, yet a request for that path is
      itself answered with 404. */
  lemma AdvertisedApiRouteNotServed(auth: Option<string>, webViewUrl: Option<string>, b: Backend)
    ensures "/api/favorites" in AdvertisedRoutes
    ensures Handle(Request("GET", "/api/favorites", auth), webViewUrl, b).status == 404
  {
    assert !HasFunctionPrefix("/api/favorites");
  }
}
