/** The Mangakomi adapter: a Madara (WordPress) site whose listing pages
    past the first are fetched with an AJAX "load more" POST, and whose
    chapter list needs the site's numeric post id, which the details parser
    smuggles in as the first genre. */
module Mangakomi {
  import opened Wrappers
  import opened Text
  import opened Model
  import ChapterName
  import opened ChapterOrder

  const BaseUrl: string := "https://mangakomi.com"
  const AjaxPath: string := "/wp-admin/admin-ajax.php"

  /** customPageIterator: the technical query parameter carrying the page. */
  const PageParam: string := "mypagenum"

  const AjaxUrl: Url := Url(BaseUrl + AjaxPath, [])

  const FormContentType: string := "application/x-www-form-urlencoded; charset=UTF-8"

  const NullPointer: string := "NullPointerException"
  const NumberFormat: string := "NumberFormatException"
  const Uninitialized: string := "UninitializedPropertyAccessException"

  // ---------------------------------------------------------------------
  // makePaginatedRequest
  // ---------------------------------------------------------------------

  /** The page parameter's value read as an Int: `!!` throws on a null
      value, toInt() on anything that is not a 32-bit integer. */
  function PageNumber(q: seq<QueryParam>): Result<int> {
    match QueryParameter(q, PageParam)
    case None => Err(NullPointer)
    case Some(v) =>
      match ParseInt32(v)
      case None => Err(NumberFormat)
      case Some(n) => Ok(n)
  }

  /** The query rebuilt from the given names, skipping the page parameter;
      each name carries the first value the original query has for it. */
  function StrippedFrom(names: seq<string>, q: seq<QueryParam>): seq<QueryParam>
    decreases |names|
  {
    if names == [] then []
    else
      var last := names[|names| - 1];
      StrippedFrom(names[..|names| - 1], q) + (if last != PageParam then [QueryParam(last, QueryParameter(q, last))] else [])
  }

  lemma {:induction false} StrippedFromProperties(names: seq<string>, q: seq<QueryParam>)
    ensures forall i :: 0 <= i < |StrippedFrom(names, q)| ==>
      var p := StrippedFrom(names, q)[i];
      p.name in names && p.name != PageParam && p.value == QueryParameter(q, p.name)
    ensures forall n :: n in names && n != PageParam ==> exists i :: 0 <= i < |StrippedFrom(names, q)| && StrippedFrom(names, q)[i].name == n
    decreases |names|
  {
    if names != [] {
      var init := names[..|names| - 1];
      var last := names[|names| - 1];
      StrippedFromProperties(init, q);
      var head := StrippedFrom(init, q);
      var r := StrippedFrom(names, q);
      assert names == init + [last];
      assert forall i :: 0 <= i < |head| ==> r[i] == head[i];
      forall n | n in names && n != PageParam
        ensures exists i :: 0 <= i < |r| && r[i].name == n
      {
        if n in init {
          var i :| 0 <= i < |head| && head[i].name == n;
          assert r[i].name == n;
        } else {
          assert n == last;
          assert r[|r| - 1].name == n;
        }
      }
    }
  }

  /** The URL's query without the page parameter. */
  function Stripped(q: seq<QueryParam>): seq<QueryParam> {
    StrippedFrom(QueryParameterNames(q), q)
  }

  lemma {:induction false} StrippedFromDistinct(names: seq<string>, q: seq<QueryParam>)
    requires forall i, j :: 0 <= i < j < |names| ==> names[i] != names[j]
    ensures forall i, j :: 0 <= i < j < |StrippedFrom(names, q)| ==>
      StrippedFrom(names, q)[i].name != StrippedFrom(names, q)[j].name
    decreases |names|
  {
    if names != [] {
      var init := names[..|names| - 1];
      var last := names[|names| - 1];
      StrippedFromDistinct(init, q);
      StrippedFromProperties(init, q);
      var head := StrippedFrom(init, q);
      var r := StrippedFrom(names, q);
      assert forall i :: 0 <= i < |head| ==> r[i] == head[i];
      assert last !in init by {
        assert forall i :: 0 <= i < |init| ==> init[i] == names[i];
      }
    }
  }

  /** Stripping removes the page parameter and keeps every other parameter
      with its first value. */
  lemma StrippedQuery(q: seq<QueryParam>, name: string)
    ensures !HasParam(Stripped(q), PageParam)
    ensures name != PageParam ==> (HasParam(Stripped(q), name) <==> HasParam(q, name))
    ensures name != PageParam ==> QueryParameter(Stripped(q), name) == QueryParameter(q, name)
  {
    var s := Stripped(q);
    StrippedFromProperties(QueryParameterNames(q), q);
    StrippedFromDistinct(QueryParameterNames(q), q);
    if name != PageParam {
      if HasParam(q, name) {
        var i :| 0 <= i < |s| && s[i].name == name;
        assert NameAbsentBefore(s, name, i);
      } else {
        AbsentParam(q, name);
        AbsentParam(s, name);
      }
    }
  }

  /** Stripping twice is stripping once. */
  lemma StrippedIdempotent(q: seq<QueryParam>)
    ensures forall name :: HasParam(Stripped(Stripped(q)), name) <==> HasParam(Stripped(q), name)
    ensures forall name :: QueryParameter(Stripped(Stripped(q)), name) == QueryParameter(Stripped(q), name)
  {
    forall name
      ensures HasParam(Stripped(Stripped(q)), name) <==> HasParam(Stripped(q), name)
      ensures QueryParameter(Stripped(Stripped(q)), name) == QueryParameter(Stripped(q), name)
    {
      StrippedQuery(q, name);
      StrippedQuery(Stripped(q), name);
      if name == PageParam {
        AbsentParam(Stripped(q), name);
        AbsentParam(Stripped(Stripped(q)), name);
      }
    }
  }

  /** vars[meta_key]: taken from m_orderby only for "latest" and "views". */
  function MetaKey(q: seq<QueryParam>): string {
    if !HasParam(q, "m_orderby") then ""
    else
      match QueryParameter(q, "m_orderby")
      case Some(v) => if v == "latest" then "_latest_update" else if v == "views" then "_wp_manga_views" else ""
      case None => ""
  }

  lemma MetaKeyValues(q: seq<QueryParam>)
    ensures MetaKey(q) == "_latest_update" <==> QueryParameter(q, "m_orderby") == Some("latest")
    ensures MetaKey(q) == "_wp_manga_views" <==> QueryParameter(q, "m_orderby") == Some("views")
    ensures MetaKey(q) in {"", "_latest_update", "_wp_manga_views"}
  {
    var p := QueryParameter(q, "m_orderby");
    if !HasParam(q, "m_orderby") {
      AbsentParam(q, "m_orderby");
    }
    assert MetaKey(q) == KeyForOrder(p);
    KeyForOrderValues(p);
  }

  function KeyForOrder(p: Option<string>): string {
    if p == Some("latest") then "_latest_update"
    else if p == Some("views") then "_wp_manga_views"
    else ""
  }

  lemma KeyForOrderValues(p: Option<string>)
    ensures KeyForOrder(p) == "_latest_update" <==> p == Some("latest")
    ensures KeyForOrder(p) == "_wp_manga_views" <==> p == Some("views")
    ensures KeyForOrder(p) in {"", "_latest_update", "_wp_manga_views"}
  {
    assert "latest"[0] != "views"[0];
    assert |"_latest_update"| != |"_wp_manga_views"|;
    assert |""| != |"_latest_update"| && |""| != |"_wp_manga_views"|;
  }

  /** The form of the search "load more" request: action madara_load_more,
      the page, the search template and the search text. */
  function SearchForm(page: int, s: string): (form: map<string, string>)
    ensures "action" in form && form["action"] == "madara_load_more"
    ensures "page" in form && form["page"] == IntToString(page)
    ensures "template" in form && form["template"] == "madara-core/content/content-search"
    ensures "vars[s]" in form && form["vars[s]"] == s
    ensures "vars[meta_key]" !in form
  {
    map[
      "action" := "madara_load_more",
      "page" := IntToString(page),
      "template" := "madara-core/content/content-search",
      "vars[s]" := s,
      "vars[orderby]" := "",
      "vars[paged]" := "1",
      "vars[template]" := "search",
      "vars[meta_query][0][relation]" := "AND",
      "vars[meta_query][relation]" := "OR",
      "vars[post_type]" := "wp-manga",
      "vars[post_status]" := "publish",
      "vars[manga_archives_item_layout]" := "default"
    ]
  }

  /** The form of the listing "load more" request: action madara_load_more,
      the page, the archive template, ordered by the meta key's value. */
  function ArchiveForm(page: int, metaKey: string): (form: map<string, string>)
    ensures "action" in form && form["action"] == "madara_load_more"
    ensures "page" in form && form["page"] == IntToString(page)
    ensures "template" in form && form["template"] == "madara-core/content/content-archive"
    ensures "vars[meta_key]" in form && form["vars[meta_key]"] == metaKey
    ensures "vars[orderby]" in form && form["vars[orderby]"] == "meta_value_num"
    ensures "vars[s]" !in form
  {
    map[
      "action" := "madara_load_more",
      "page" := IntToString(page),
      "template" := "madara-core/content/content-archive",
      "vars[paged]" := "1",
      "vars[orderby]" := "meta_value_num",
      "vars[template]" := "archive",
      "vars[sidebar]" := "full",
      "vars[post_type]" := "wp-manga",
      "vars[post_status]" := "publish",
      "vars[meta_key]" := metaKey,
      "vars[order]" := "desc",
      "vars[meta_query][relation]" := "OR",
      "vars[manga_archives_item_layout]" := "default"
    ]
  }

  /** The search form when the query has "s" (a null "s" is sent as the
      text "null"), the archive form otherwise. */
  function LoadMoreForm(page: int, q: seq<QueryParam>): (form: map<string, string>)
    ensures "action" in form && form["action"] == "madara_load_more"
  {
    if HasParam(q, "s") then SearchForm(page, QueryParameter(q, "s").GetOr("null"))
    else ArchiveForm(page, MetaKey(q))
  }

  /** The form asks for the requested page, and it is the search form,
      carrying the search text, exactly when the query is a search. */
  lemma LoadMoreFormPage(page: int, q: seq<QueryParam>)
    requires IsInt32(page)
    ensures "page" in LoadMoreForm(page, q) && ParseInt32(LoadMoreForm(page, q)["page"]) == Some(page)
    ensures "vars[s]" in LoadMoreForm(page, q) <==> HasParam(q, "s")
    ensures "vars[meta_key]" in LoadMoreForm(page, q) <==> !HasParam(q, "s")
    ensures HasParam(q, "s") ==> LoadMoreForm(page, q)["vars[s]"] == QueryParameter(q, "s").GetOr("null")
    ensures !HasParam(q, "s") ==> LoadMoreForm(page, q)["vars[meta_key]"] == MetaKey(q)
  {
    IntToStringRoundTrip(page);
  }

  /** The headers of the "load more" request; the referer is the first page. */
  function AjaxHeaders(referer: string): (h: map<string, string>)
    ensures "referer" in h && h["referer"] == referer
    ensures "x-requested-with" in h && h["x-requested-with"] == "XMLHttpRequest"
    ensures "origin" in h && h["origin"] == BaseUrl
  {
    map[
      "x-requested-with" := "XMLHttpRequest",
      "origin" := BaseUrl,
      "sec-fetch-site" := "same-origin",
      "sec-fetch-mode" := "cors",
      "sec-fetch-dest" := "empty",
      "content-type" := FormContentType,
      "referer" := referer
    ]
  }

  /** makePaginatedRequest: a request without the page parameter passes
      through; page 1 is the same GET without the page parameter; any other
      page becomes the AJAX POST whose referer is that GET's URL; a page
      value that is null or not an Int throws. */
  function Paginated(req: Request): (r: Result<Request>)
    ensures r.Ok? ==> !HasParam(r.value.url.query, PageParam)
  {
    var q := req.url.query;
    StrippedQuery(q, PageParam);
    if !HasParam(q, PageParam) then Ok(req)
    else
      match PageNumber(q)
      case Err(e) => Err(e)
      case Ok(n) =>
        var original := Url(req.url.base, Stripped(q));
        if n == 1 then Ok(Get(original, req.headers))
        else Ok(Post(AjaxUrl, LoadMoreForm(n, q), AjaxHeaders(Render(original))))
  }

  /** No request that comes out carries the page parameter; it fails exactly
      when the page value cannot be read; without the page parameter the
      request passes through. */
  lemma PaginatedStripsPage(req: Request)
    ensures Paginated(req).Ok? ==> !HasParam(Paginated(req).value.url.query, PageParam)
    ensures Paginated(req).Err? <==> HasParam(req.url.query, PageParam) && PageNumber(req.url.query).Err?
    ensures !HasParam(req.url.query, PageParam) ==> Paginated(req) == Ok(req)
  {
    StrippedQuery(req.url.query, PageParam);
  }

  /** With a readable page N: N = 1 gives a GET of the same base with the
      same headers whose query is the stripped one, so every other
      parameter, valueless or not, is kept with its first value;
      any other N gives an XMLHttpRequest POST to the AJAX endpoint whose
      form is a madara_load_more asking for page N and whose referer is the
      page-1 URL. */
  lemma PaginatedPages(req: Request)
    requires HasParam(req.url.query, PageParam) && PageNumber(req.url.query).Ok?
    ensures Paginated(req).Ok?
    ensures PageNumber(req.url.query).value == 1 ==>
      Paginated(req).value.Get? && Paginated(req).value.headers == req.headers &&
      Paginated(req).value.url.base == req.url.base &&
      Paginated(req).value.url.query == Stripped(req.url.query) &&
      forall name :: name != PageParam ==>
        QueryParameter(Paginated(req).value.url.query, name) == QueryParameter(req.url.query, name)
    ensures PageNumber(req.url.query).value != 1 ==>
      Paginated(req).value.Post? && Paginated(req).value.url == AjaxUrl &&
      "page" in Paginated(req).value.form &&
      ParseInt32(Paginated(req).value.form["page"]) == Some(PageNumber(req.url.query).value) &&
      "action" in Paginated(req).value.form && Paginated(req).value.form["action"] == "madara_load_more"
    ensures PageNumber(req.url.query).value != 1 ==>
      var h := Paginated(req).value.headers;
      "referer" in h && h["referer"] == Render(Url(req.url.base, Stripped(req.url.query))) &&
      "x-requested-with" in h && h["x-requested-with"] == "XMLHttpRequest"
  {
    var q := req.url.query;
    var n := PageNumber(q).value;
    if n == 1 {
      forall name | name != PageParam
        ensures QueryParameter(Stripped(q), name) == QueryParameter(q, name)
      {
        StrippedQuery(q, name);
      }
    } else {
      PageNumberInRange(q);
      LoadMoreFormPage(n, q);
    }
  }

  lemma PageNumberInRange(q: seq<QueryParam>)
    ensures PageNumber(q).Ok? ==> IsInt32(PageNumber(q).value)
  {
  }

  method MakePaginatedRequest(req: Request) returns (r: Result<Request>)
    ensures r == Paginated(req)
  {
    var url := req.url;
    var names := QueryParameterNames(url.query);
    if PageParam !in names {
      return Ok(req);
    }
    var page := ReadPage(url.query);
    if page.Err? {
      return Err(page.error);
    }
    var metaKey := ReadMetaKey(url.query, names);
    var query := StripQuery(url.query, names);
    var originalUrl := Url(url.base, query);
    if page.value == 1 {
      r := Ok(Get(originalUrl, req.headers));
    } else {
      var form;
      if "s" in names {
        form := SearchForm(page.value, QueryParameter(url.query, "s").GetOr("null"));
      } else {
        form := ArchiveForm(page.value, metaKey);
      }
      r := Ok(Post(AjaxUrl, form, AjaxHeaders(Render(originalUrl))));
    }
  }

  /** `url.queryParameter(pageParam)!!.toInt()`. */
  method ReadPage(q: seq<QueryParam>) returns (r: Result<int>)
    ensures r == PageNumber(q)
    ensures r.Ok? ==> IsInt32(r.value)
  {
    match QueryParameter(q, PageParam) {
      case None =>
        r := Err(NullPointer);
      case Some(v) =>
        match ParseInt32(v) {
          case None =>
            r := Err(NumberFormat);
          case Some(n) =>
            r := Ok(n);
        }
    }
  }

  /** The `when` on m_orderby that chooses vars[meta_key]. */
  method ReadMetaKey(q: seq<QueryParam>, names: seq<string>) returns (metaKey: string)
    requires names == QueryParameterNames(q)
    ensures metaKey == MetaKey(q)
  {
    metaKey := "";
    if "m_orderby" in names {
      match QueryParameter(q, "m_orderby") {
        case Some(v) =>
          if v == "latest" {
            metaKey := "_latest_update";
          } else if v == "views" {
            metaKey := "_wp_manga_views";
          }
        case None =>
      }
    }
  }

  /** The forEach over queryParameterNames() that copies every parameter
      but the page one, with its first value, into the rebuilt URL. */
  method StripQuery(q: seq<QueryParam>, names: seq<string>) returns (query: seq<QueryParam>)
    ensures query == StrippedFrom(names, q)
  {
    query := [];
    var i := 0;
    while i < |names|
      invariant 0 <= i <= |names|
      invariant query == StrippedFrom(names[..i], q)
    {
      assert names[..i + 1][..i] == names[..i];
      if names[i] != PageParam {
        query := query + [QueryParam(names[i], QueryParameter(q, names[i]))];
      }
      i := i + 1;
    }
    assert names[..|names|] == names;
  }

  // ---------------------------------------------------------------------
  // Listing and search requests
  // ---------------------------------------------------------------------

  /** The query of a listing URL "<path>?m_orderby=<order>&mypagenum=<page>". */
  lemma ListingQuery(order: string, page: int)
    requires IsInt32(page)
    ensures HasParam(ListingParams(order, page), PageParam)
    ensures !HasParam(ListingParams(order, page), "s")
    ensures PageNumber(ListingParams(order, page)) == Ok(page)
    ensures Stripped(ListingParams(order, page)) == [QueryParam("m_orderby", Some(order))]
    ensures QueryParameter(ListingParams(order, page), "m_orderby") == Some(order)
  {
    var q := ListingParams(order, page);
    assert "m_orderby"[1] != PageParam[1];
    QueryOfTwo(q[0], q[1]);
    IntToStringRoundTrip(page);
    assert "s" != "m_orderby" && "s" != PageParam;
    StrippedFromTwo("m_orderby", q);
  }

  function ListingParams(order: string, page: int): seq<QueryParam> {
    [QueryParam("m_orderby", Some(order)), QueryParam(PageParam, Some(IntToString(page)))]
  }

  /** popularMangaRequest: "/?m_orderby=views"; page 1 is a GET of that
      URL, later pages are the archive "load more" POST ordered by views. */
  method PopularMangaRequest(page: int) returns (r: Result<Request>)
    requires IsInt32(page)
    ensures page == 1 ==> r == Ok(Get(Url(BaseUrl + "/", [QueryParam("m_orderby", Some("views"))]), DefaultHeaders))
    ensures page != 1 ==> r == Ok(Post(AjaxUrl, ArchiveForm(page, "_wp_manga_views"), AjaxHeaders(BaseUrl + "/?m_orderby=views")))
  {
    var q := ListingParams("views", page);
    ListingQuery("views", page);
    MetaKeyValues(q);
    r := MakePaginatedRequest(Get(Url(BaseUrl + "/", q), DefaultHeaders));
    PopularReferer();
  }

  /** latestUpdatesRequest: "/manga/?m_orderby=latest", the same way. */
  method LatestUpdatesRequest(page: int) returns (r: Result<Request>)
    requires IsInt32(page)
    ensures page == 1 ==> r == Ok(Get(Url(BaseUrl + "/manga/", [QueryParam("m_orderby", Some("latest"))]), DefaultHeaders))
    ensures page != 1 ==> r == Ok(Post(AjaxUrl, ArchiveForm(page, "_latest_update"), AjaxHeaders(BaseUrl + "/manga/?m_orderby=latest")))
  {
    var q := ListingParams("latest", page);
    ListingQuery("latest", page);
    MetaKeyValues(q);
    r := MakePaginatedRequest(Get(Url(BaseUrl + "/manga/", q), DefaultHeaders));
    LatestReferer();
  }

  lemma PopularReferer()
    ensures Render(Url(BaseUrl + "/", [QueryParam("m_orderby", Some("views"))])) == BaseUrl + "/?m_orderby=views"
  {
    RenderOne(BaseUrl + "/", "m_orderby", "views");
  }

  lemma LatestReferer()
    ensures Render(Url(BaseUrl + "/manga/", [QueryParam("m_orderby", Some("latest"))])) == BaseUrl + "/manga/?m_orderby=latest"
  {
    RenderOne(BaseUrl + "/manga/", "m_orderby", "latest");
  }

  lemma SearchReferer(text: string)
    ensures Render(Url(BaseUrl + "/", [QueryParam("s", Some(text)), QueryParam("post_type", Some("wp-manga"))])) ==
      BaseUrl + "/?s=" + text + "&post_type=wp-manga"
  {
    RenderTwo(BaseUrl + "/", "s", text, "post_type", "wp-manga");
  }

  /** The query of a search URL "/?s=<text>&mypagenum=<page>&post_type=wp-manga". */
  function SearchParams(text: string, page: int): seq<QueryParam> {
    [QueryParam("s", Some(text)), QueryParam(PageParam, Some(IntToString(page))), QueryParam("post_type", Some("wp-manga"))]
  }

  lemma SearchQuery(text: string, page: int)
    requires IsInt32(page)
    ensures HasParam(SearchParams(text, page), PageParam)
    ensures HasParam(SearchParams(text, page), "s")
    ensures PageNumber(SearchParams(text, page)) == Ok(page)
    ensures QueryParameter(SearchParams(text, page), "s") == Some(text)
    ensures Stripped(SearchParams(text, page)) == [QueryParam("s", Some(text)), QueryParam("post_type", Some("wp-manga"))]
  {
    var q := SearchParams(text, page);
    assert "post_type"[0] != PageParam[0];
    QueryOfThree(q[0], q[1], q[2]);
    IntToStringRoundTrip(page);
    StrippedFromThree("s", "post_type", q);
  }

  /** Stripping a query whose names are x, the page parameter and y. */
  lemma StrippedFromThree(x: string, y: string, q: seq<QueryParam>)
    requires x != PageParam && y != PageParam
    ensures StrippedFrom([x, PageParam, y], q) ==
      [QueryParam(x, QueryParameter(q, x)), QueryParam(y, QueryParameter(q, y))]
  {
    var names := [x, PageParam, y];
    assert names[..2] == [x, PageParam];
    StrippedFromTwo(x, q);
  }

  /** Stripping a query whose names are x and the page parameter. */
  lemma StrippedFromTwo(x: string, q: seq<QueryParam>)
    requires x != PageParam
    ensures StrippedFrom([x, PageParam], q) == [QueryParam(x, QueryParameter(q, x))]
  {
    var names := [x, PageParam];
    assert names[..1] == [x] && names[..1][..0] == [];
    assert StrippedFrom([], q) == [];
  }

  /** searchMangaRequest: the query lowercased into "s"; page 1 is a GET of
      "/?s=<query>&post_type=wp-manga", later pages the search "load more"
      POST. */
  method SearchMangaRequest(page: int, query: string) returns (r: Result<Request>)
    requires IsInt32(page)
    ensures page == 1 ==> r == Ok(Get(Url(BaseUrl + "/", [QueryParam("s", Some(Lower(query))),
                                                         QueryParam("post_type", Some("wp-manga"))]), DefaultHeaders))
    ensures page != 1 ==> r == Ok(Post(AjaxUrl, SearchForm(page, Lower(query)),
                                       AjaxHeaders(BaseUrl + "/?s=" + Lower(query) + "&post_type=wp-manga")))
  {
    var rawq := Lower(query);
    var q := SearchParams(rawq, page);
    SearchQuery(rawq, page);
    r := MakePaginatedRequest(Get(Url(BaseUrl + "/", q), DefaultHeaders));
    SearchReferer(rawq);
  }

  // ---------------------------------------------------------------------
  // The site's post id and the chapter-list request
  // ---------------------------------------------------------------------

  /** getMangaId: the first ", "-separated piece of the genre string read as
      an Int, or -1; a null genre throws. */
  function GetMangaId(genre: Option<string>): (r: Result<int>)
    ensures genre.None? <==> r.Err?
    ensures r.Ok? ==> r.value == -1 || (IsInt32(r.value) && ParseInt32(Split(genre.value, ", ")[0]) == Some(r.value))
    ensures genre.Some? && ParseInt32(Split(genre.value, ", ")[0]).Some? ==>
      r == Ok(ParseInt32(Split(genre.value, ", ")[0]).value)
    ensures genre.Some? && ParseInt32(Split(genre.value, ", ")[0]).None? ==> r == Ok(-1)
  {
    match genre
    case None => Err(NullPointer)
    case Some(g) =>
      var genres := Split(g, ", ");
      if |genres| == 0 then Ok(-1)
      else
        match ParseInt32(genres[0])
        case Some(id) => Ok(id)
        case None => Ok(-1)
  }

  /** The genre string the details parser writes gives back the post id. */
  lemma GenreCarriesMangaId(id: int, genres: seq<string>)
    requires IsInt32(id)
    ensures GetMangaId(Some(Join([IntToString(id)] + genres, ", "))) == Ok(id)
  {
    IntToStringHasNoComma(id);
    FirstPieceOfJoin(IntToString(id), genres);
    IntToStringRoundTrip(id);
  }

  /** A genre string whose first entry is not an Int (as when the details
      page has no post id and "" is pushed in front) yields -1. */
  lemma MissingIdGivesMinusOne(first: string, genres: seq<string>)
    requires ParseInt32(first).None? && !Contains(first, ", ")
    ensures GetMangaId(Some(Join([first] + genres, ", "))) == Ok(-1)
  {
    FirstPieceOfJoin(first, genres);
  }

  /** chapterListRequest for a manga at `url` with post id `id`: the ajax
      POST asking for the chapters of that post, refered from the manga's
      page. */
  function ChapterListRequest(url: string, id: int): (r: Request)
    ensures r.Post? && r.url == AjaxUrl
    ensures r.form == map["action" := "manga_get_chapters", "manga" := IntToString(id)]
    ensures "referer" in r.headers && r.headers["referer"] == BaseUrl + url
  {
    Post(AjaxUrl, map["action" := "manga_get_chapters", "manga" := IntToString(id)],
      map[
        "dnt" := "1",
        "x-requested-with" := "XMLHttpRequest",
        "user-agent" := UserAgent,
        "content-type" := FormContentType,
        "origin" := BaseUrl,
        "sec-fetch-site" := "same-origin",
        "sec-fetch-mode" := "cors",
        "sec-fetch-dest" := "empty",
        "referer" := BaseUrl + url
      ])
  }

  /** fetchChapterList: a licensed manga or one without a post id fails with
      the "Licensed" message and issues no request; a manga whose genre is
      null, or whose url was never set, throws; otherwise the chapter-list
      request for its post id. */
  function FetchChapterList(manga: Manga): (f: ChapterFetch)
    ensures manga.status == Licensed ==> f == Refused(LicensedMessage)
    ensures manga.status != Licensed && manga.genre.None? ==> f == Crashed(NullPointer)
    ensures f.Proceed? <==>
      (manga.status != Licensed && manga.url.Some? && GetMangaId(manga.genre).Ok? && GetMangaId(manga.genre).value != -1)
    ensures f.Proceed? ==> f.request == ChapterListRequest(manga.url.value, GetMangaId(manga.genre).value)
    ensures f.Refused? ==> f.message == LicensedMessage
    ensures f.Refused? <==> manga.status == Licensed || GetMangaId(manga.genre) == Ok(-1)
  {
    if manga.status == Licensed then Refused(LicensedMessage)
    else
      match GetMangaId(manga.genre)
      case Err(e) => Crashed(e)
      case Ok(id) =>
        if id == -1 then Refused(LicensedMessage)
        else
          match manga.url
          case None => Crashed(Uninitialized)
          case Some(url) => Proceed(ChapterListRequest(url, id))
  }

  /** A manga whose details were parsed from a page carrying post id `id`
      fetches the chapters of that post. */
  lemma FetchUsesParsedId(manga: Manga, id: int, genres: seq<string>)
    requires IsInt32(id) && id != -1
    requires manga.status != Licensed && manga.url.Some?
    requires manga.genre == Some(Join([IntToString(id)] + genres, ", "))
    ensures FetchChapterList(manga) == Proceed(ChapterListRequest(manga.url.value, id))
  {
    GenreCarriesMangaId(id, genres);
  }

  /** A manga parsed from a page without a post id is refused as if it were
      licensed. */
  lemma FetchRefusesMissingId(manga: Manga, genres: seq<string>)
    requires manga.genre == Some(Join([""] + genres, ", "))
    ensures FetchChapterList(manga) == Refused(LicensedMessage)
  {
    assert !Contains("", ", ");
    MissingIdGivesMinusOne("", genres);
  }

  // ---------------------------------------------------------------------
  // Chapters
  // ---------------------------------------------------------------------

  /** What chapterFromElement reads from one list item: the text of its
      links, the link target, and the outcome of parsing the release date
      with "MM/dd/yyyy" (None where SimpleDateFormat throws). */
  datatype ChapterItem = ChapterItem(linkText: string, href: string, releaseDate: Option<int>)

  /** chapterFromElement: the normalised name, its number, the link and the
      release date (0 where it does not parse); a link text without
      "Chapter <digits>" throws. */
  function ChapterFromElement(item: ChapterItem): (r: Result<Chapter>)
    ensures r.Ok? <==> ChapterName.ParseChapterName(item.linkText, false).Some?
    ensures r.Ok? ==> ChapterName.IsChapterName(r.value.name, false) && AllDigits(r.value.name[8..])
    ensures r.Ok? ==> r.value.number == DigitsValue(r.value.name[8..]) as real
    ensures r.Ok? ==> r.value.url == item.href && r.value.dateUpload == item.releaseDate.GetOr(0)
    ensures r.Ok? ==> r.value.name == ChapterName.ParseChapterName(item.linkText, false).value
  {
    match ChapterName.ParseChapterName(item.linkText, false)
    case None => Err(NullPointer)
    case Some(name) =>
      ChapterName.NumberOfChapterName(name, false, -1.0);
      Ok(Chapter(name, ChapterName.NumberFromName(name, -1.0), item.href, item.releaseDate.GetOr(0)))
  }

  /** chapterListParse: map, then distinct, sort and reverse. It throws
      exactly when some item's link text has no chapter name. */
  function ChapterListParse(items: seq<ChapterItem>): (r: Result<seq<Chapter>>)
    ensures r.Ok? <==> forall i :: 0 <= i < |items| ==> ChapterName.ParseChapterName(items[i].linkText, false).Some?
    ensures r.Err? ==> r.error == NullPointer
  {
    match MapAll(ChapterFromElement, items)
    case Err(e) => Err(e)
    case Ok(cs) => Ok(Normalize(cs))
  }

  /** The chapter list is newest first, has one chapter per name and
      number, and each chapter is named "Chapter <digits>" and numbered by
      those digits. */
  lemma ChapterListShape(items: seq<ChapterItem>)
    requires ChapterListParse(items).Ok?
    ensures Descending(ChapterListParse(items).value)
    ensures UniqueKeys(ChapterListParse(items).value)
    ensures forall i :: 0 <= i < |ChapterListParse(items).value| ==>
      var c := ChapterListParse(items).value[i];
      ChapterName.IsChapterName(c.name, false) && AllDigits(c.name[8..]) && c.number == DigitsValue(c.name[8..]) as real
  {
    var cs := MapAll(ChapterFromElement, items).value;
    NormalizeKeepsFirstOccurrences(cs);
    NormalizeFromInput(cs);
    forall c | c in cs
      ensures ChapterName.IsChapterName(c.name, false) && AllDigits(c.name[8..]) && c.number == DigitsValue(c.name[8..]) as real
    {
      var i :| 0 <= i < |cs| && cs[i] == c;
    }
  }

  /** Every item's (name, number) is in the chapter list. */
  lemma ChapterListCoversItems(items: seq<ChapterItem>)
    requires ChapterListParse(items).Ok?
    ensures forall j :: 0 <= j < |items| ==> HasKey(ChapterListParse(items).value, Key(ChapterFromElement(items[j]).value))
  {
    var cs := MapAll(ChapterFromElement, items).value;
    NormalizeCovers(cs);
    forall j | 0 <= j < |items| ensures HasKey(Normalize(cs), Key(ChapterFromElement(items[j]).value)) {
      assert cs[j] == ChapterFromElement(items[j]).value;
    }
  }

  /** Every chapter in the list is the chapter of one of the items. */
  lemma ChapterListFromItems(items: seq<ChapterItem>)
    requires ChapterListParse(items).Ok?
    ensures forall i :: 0 <= i < |ChapterListParse(items).value| ==>
      exists j :: 0 <= j < |items| && ChapterFromElement(items[j]) == Ok(ChapterListParse(items).value[i])
  {
    var cs := MapAll(ChapterFromElement, items).value;
    var r := Normalize(cs);
    NormalizeFromInput(cs);
    forall i | 0 <= i < |r|
      ensures exists j :: 0 <= j < |items| && ChapterFromElement(items[j]) == Ok(r[i])
    {
      var j :| 0 <= j < |cs| && cs[j] == r[i];
      assert ChapterFromElement(items[j]).Ok?;
    }
  }

  // ---------------------------------------------------------------------
  // Details and pages
  // ---------------------------------------------------------------------

  /** What mangaDetailsParse reads from a details page; attributes and texts
      of missing elements are empty. */
  datatype DetailsPage = DetailsPage(
    ratingPostId: string,
    genreLinks: seq<string>,
    authorLinks: seq<string>,
    title: string,
    statusText: string,
    thumbnailDataSrc: string,
    description: string)

  /** mangaDetailsParse: the post id pushed in front of the genres, the
      authors joined, the status normalised. */
  method MangaDetailsParse(page: DetailsPage) returns (manga: Manga)
    ensures manga.url.None?
    ensures manga.title == Some(page.title) && manga.description == Some(page.description)
    ensures manga.thumbnailUrl == Some(page.thumbnailDataSrc)
    ensures manga.status == ParseStatus(page.statusText)
    ensures manga.genre == Some(Join([page.ratingPostId] + page.genreLinks, ", "))
    ensures manga.author == Some(Join(page.authorLinks, ", "))
  {
    var genres: seq<string> := [page.ratingPostId];
    for i := 0 to |page.genreLinks|
      invariant genres == [page.ratingPostId] + page.genreLinks[..i]
    {
      genres := genres + [page.genreLinks[i]];
    }
    assert page.genreLinks[..|page.genreLinks|] == page.genreLinks;
    var authors: seq<string> := [];
    for i := 0 to |page.authorLinks|
      invariant authors == page.authorLinks[..i]
    {
      authors := authors + [page.authorLinks[i]];
    }
    assert page.authorLinks[..|page.authorLinks|] == page.authorLinks;
    manga := Manga(None, Some(page.title), Some(Join(authors, ", ")), Some(page.description),
                   Some(Join(genres, ", ")), ParseStatus(page.statusText), Some(page.thumbnailDataSrc));
  }

  /** A reader image: its data-lazy-src attribute when it has one, and src. */
  datatype PageImage = PageImage(lazySrc: Option<string>, src: string)

  function ImageSource(img: PageImage): string {
    img.lazySrc.GetOr(img.src)
  }

  /** pageListParse: one page per image, numbered from 0 in document order,
      each pointing back at the chapter URL. */
  method PageListParse(refUrl: string, images: seq<PageImage>) returns (pages: seq<Page>)
    ensures |pages| == |images|
    ensures forall k :: 0 <= k < |pages| ==> pages[k].index == k && pages[k].url == refUrl
    ensures forall k :: 0 <= k < |pages| ==>
      pages[k].imageUrl == (if images[k].lazySrc.Some? then images[k].lazySrc.value else images[k].src)
  {
    pages := [];
    var i := 0;
    while i < |images|
      invariant 0 <= i <= |images| && |pages| == i
      invariant forall k :: 0 <= k < i ==> pages[k] == Page(k, refUrl, ImageSource(images[k]))
    {
      pages := pages + [Page(i, refUrl, ImageSource(images[i]))];
      i := i + 1;
    }
  }
}
