/** The Manganelo adapter: listings paged through the URL path, chapters
    kept in page order with their names as shown, a chapter number read from
    the name when it has one, and an upload date that must parse. */
module Manganelo {
  import opened Wrappers
  import opened Text
  import opened Model
  import ChapterName

  const BaseUrl: string := "https://manganelo.com"
  const GenreAll: string := BaseUrl + "/genre-all"
  const SearchPath: string := BaseUrl + "/search/story/"

  const ParseException: string := "ParseException"
  const Uninitialized: string := "UninitializedPropertyAccessException"

  // ---------------------------------------------------------------------
  // Listing and search requests
  // ---------------------------------------------------------------------

  /** popularMangaRequest: "/genre-all?type=topview" for the first page,
      "/genre-all/<page>?type=topview" for the others. */
  function PopularMangaRequest(page: int): (r: Request)
    ensures r.Get? && r.headers == DefaultHeaders
    ensures r.url.query == [QueryParam("type", Some("topview"))]
    ensures page == 1 ==> r.url.base == GenreAll
    ensures page != 1 ==> r.url.base == GenreAll + "/" + IntToString(page)
  {
    var path := if page == 1 then GenreAll else GenreAll + "/" + IntToString(page);
    Get(Url(path, [QueryParam("type", Some("topview"))]), DefaultHeaders)
  }

  /** latestUpdatesRequest: "/genre-all" for the first page,
      "/genre-all/<page>" for the others. */
  function LatestUpdatesRequest(page: int): (r: Request)
    ensures r.Get? && r.headers == DefaultHeaders && r.url.query == []
    ensures page == 1 ==> r.url.base == GenreAll
    ensures page != 1 ==> r.url.base == GenreAll + "/" + IntToString(page)
  {
    var path := if page == 1 then GenreAll else GenreAll + "/" + IntToString(page);
    Get(Url(path, []), DefaultHeaders)
  }

  /** The page a listing path asks the site for: "/genre-all" is the first
      page, "/genre-all/<n>" page n. */
  function PathPage(path: string): Option<int> {
    if path == GenreAll then Some(1)
    else if StartsWith(path, GenreAll + "/") then ParseInt32(path[|GenreAll| + 1..])
    else None
  }

  /** Both listings ask for the page they were built for, and the popular
      listing is ordered by views. */
  lemma ListingsAskForTheirPage(page: int)
    requires IsInt32(page)
    ensures PathPage(PopularMangaRequest(page).url.base) == Some(page)
    ensures PathPage(LatestUpdatesRequest(page).url.base) == Some(page)
    ensures QueryParameter(PopularMangaRequest(page).url.query, "type") == Some("topview")
  {
    IntToStringRoundTrip(page);
    if page != 1 {
      var path := GenreAll + "/" + IntToString(page);
      assert path[..|GenreAll + "/"|] == GenreAll + "/";
      assert path[|GenreAll| + 1..] == IntToString(page);
      assert |path| > |GenreAll|;
    }
  }

  /** The search path segment: spaces become underscores, then lowercase. */
  function Slug(query: string): (slug: string)
    ensures |slug| == |query|
    ensures forall i :: 0 <= i < |slug| ==> slug[i] != ' ' && !IsUpper(slug[i])
    ensures forall i :: 0 <= i < |query| && query[i] != ' ' && !IsUpper(query[i]) ==> slug[i] == query[i]
    ensures forall i :: 0 <= i < |query| && query[i] == ' ' ==> slug[i] == '_'
    ensures forall i :: 0 <= i < |query| && IsUpper(query[i]) ==> slug[i] == LowerChar(query[i])
  {
    var spaced := ReplaceChar(query, ' ', '_');
    var slug := Lower(spaced);
    assert forall i :: 0 <= i < |slug| ==> slug[i] != ' ' by {
      forall i | 0 <= i < |slug| ensures slug[i] != ' ' {
        assert spaced[i] != ' ';
      }
    }
    slug
  }

  /** Making a slug twice changes nothing: the result is already a slug. */
  lemma SlugIdempotent(query: string)
    ensures Slug(Slug(query)) == Slug(query)
  {
  }

  /** searchMangaRequest: "/search/story/<slug>" with the page in "page". */
  function SearchMangaRequest(page: int, query: string): (r: Request)
    ensures r.Get? && r.headers == DefaultHeaders
    ensures r.url.base == SearchPath + Slug(query)
  {
    Get(Url(SearchPath + Slug(query), [QueryParam("page", Some(IntToString(page)))]), DefaultHeaders)
  }

  /** A search asks for the page it was built for. */
  lemma SearchAsksForItsPage(page: int, query: string)
    requires IsInt32(page)
    ensures QueryParameterNames(SearchMangaRequest(page, query).url.query) == ["page"]
    ensures QueryParameter(SearchMangaRequest(page, query).url.query, "page") == Some(IntToString(page))
    ensures ParseInt32(IntToString(page)) == Some(page)
  {
    IntToStringRoundTrip(page);
    var q := SearchMangaRequest(page, query).url.query;
    assert q[..0] == [];
  }

  // ---------------------------------------------------------------------
  // Chapters
  // ---------------------------------------------------------------------

  /** fetchChapterList: a licensed manga fails with the "Licensed" message;
      any other gets the default chapter-list request, a GET of its page
      (which throws when its url was never set). */
  function FetchChapterList(manga: Manga): (f: ChapterFetch)
    ensures f.Refused? <==> manga.status == Licensed
    ensures f.Refused? ==> f.message == LicensedMessage
    ensures f.Proceed? <==> manga.status != Licensed && manga.url.Some?
    ensures f.Proceed? ==> f.request == Get(Url(BaseUrl + manga.url.value, []), DefaultHeaders)
  {
    if manga.status == Licensed then Refused(LicensedMessage)
    else
      match manga.url
      case None => Crashed(Uninitialized)
      case Some(url) => Proceed(Get(Url(BaseUrl + url, []), DefaultHeaders))
  }

  /** SChapter as this adapter fills it: the number is None where it is
      left at the host's default. */
  datatype Chapter = Chapter(name: string, number: Option<real>, url: string, dateUpload: int)

  /** What chapterFromElement reads from one row: the chapter link's text
      and target, and the row's time title as SimpleDateFormat parses it
      (None where it throws). */
  datatype ChapterRow = ChapterRow(linkText: string, href: string, time: Option<int>)

  /** The guarded number: `parseChapterName(name).split(" ")[1].toFloat()`,
      None where anything in it throws and the exception is swallowed. */
  function ChapterNumber(name: string): (x: Option<real>)
    ensures x.Some? <==> ChapterName.ParseChapterName(name, false).Some?
    ensures x.Some? ==>
      var token := ChapterName.ParseChapterName(name, false).value[8..];
      AllDigits(token) && x.value == DigitsValue(token) as real
  {
    match ChapterName.ParseChapterName(name, false)
    case None => None
    case Some(n) =>
      ChapterName.SplitChapterName(n, false);
      ChapterName.NumberOfChapterName(n, false, 0.0);
      var parts := Split(n, " ");
      if |parts| < 2 then None else ChapterName.ToFloat(parts[1])
  }

  /** chapterFromElement: the link text as the name, the guarded number,
      the link target, and the parsed upload time; a time that does not
      parse throws out of the whole chapter list. */
  function ChapterFromElement(row: ChapterRow): (r: Result<Chapter>)
    ensures r.Ok? <==> row.time.Some?
    ensures r.Err? ==> r.error == ParseException
    ensures r.Ok? ==> r.value.name == row.linkText && r.value.url == row.href && r.value.dateUpload == row.time.value
    ensures r.Ok? ==> r.value.number == ChapterNumber(row.linkText)
  {
    match row.time
    case None => Err(ParseException)
    case Some(t) => Ok(Chapter(row.linkText, ChapterNumber(row.linkText), row.href, t))
  }

  /** chapterListParse: every row mapped, in page order, with no
      de-duplication and no sorting. */
  function ChapterListParse(rows: seq<ChapterRow>): (r: Result<seq<Chapter>>)
    ensures r.Ok? <==> forall i :: 0 <= i < |rows| ==> rows[i].time.Some?
    ensures r.Ok? ==> |r.value| == |rows|
  {
    MapAll(ChapterFromElement, rows)
  }

  /** The chapter list exists exactly when every row's time parses, and then
      it holds one chapter per row, in the same order, named as the row and
      numbered by its "Chapter <digits>" where it has one. */
  lemma ChapterListKeepsRows(rows: seq<ChapterRow>)
    ensures ChapterListParse(rows).Ok? <==> forall i :: 0 <= i < |rows| ==> rows[i].time.Some?
    ensures ChapterListParse(rows).Err? ==> ChapterListParse(rows).error == ParseException
    ensures ChapterListParse(rows).Ok? ==>
      var cs := ChapterListParse(rows).value;
      |cs| == |rows| &&
      forall i :: 0 <= i < |rows| ==>
        cs[i].name == rows[i].linkText && cs[i].url == rows[i].href && cs[i].dateUpload == rows[i].time.value &&
        (cs[i].number.Some? <==> ChapterName.ParseChapterName(rows[i].linkText, false).Some?)
  {
    var r := ChapterListParse(rows);
    if r.Err? {
      var i :| 0 <= i < |rows| && ChapterFromElement(rows[i]) == Err(r.error);
    }
  }

  // ---------------------------------------------------------------------
  // Details and pages
  // ---------------------------------------------------------------------

  /** What mangaDetailsParse reads from a details page: the genre and author
      link texts in page order, the title, the status cell, the cover's src
      and the description. */
  datatype DetailsPage = DetailsPage(
    genreLinks: seq<string>,
    authorLinks: seq<string>,
    title: string,
    statusText: string,
    coverSrc: string,
    description: string)

  /** mangaDetailsParse: genres and authors collected link by link and
      joined, the status normalised, the url left unset. */
  method MangaDetailsParse(page: DetailsPage) returns (manga: Manga)
    ensures manga.url.None?
    ensures manga.title == Some(page.title) && manga.description == Some(page.description)
    ensures manga.thumbnailUrl == Some(page.coverSrc)
    ensures manga.status == ParseStatus(page.statusText)
    ensures manga.genre == Some(Join(page.genreLinks, ", "))
    ensures manga.author == Some(Join(page.authorLinks, ", "))
  {
    var genres: seq<string> := [];
    for i := 0 to |page.genreLinks|
      invariant genres == page.genreLinks[..i]
    {
      genres := genres + [page.genreLinks[i]];
    }
    assert page.genreLinks[..|page.genreLinks|] == page.genreLinks;
    var authors: seq<string> := [];
    for i := 0 to |page.authorLinks|
      invariant authors == page.authorLinks[..i]
    {
      authors := authors + [page.authorLinks[i]];
    }
    assert page.authorLinks[..|page.authorLinks|] == page.authorLinks;
    manga := Manga(None, Some(page.title), Some(Join(authors, ", ")), Some(page.description),
                   Some(Join(genres, ", ")), ParseStatus(page.statusText), Some(page.coverSrc));
  }

  /** pageListParse: one page per reader image, numbered from 0 in document
      order, each pointing back at the chapter URL; the image URLs are the
      images' src attributes, in order. */
  method PageListParse(refUrl: string, sources: seq<string>) returns (pages: seq<Page>)
    ensures ImageUrls(pages) == sources
    ensures forall k :: 0 <= k < |pages| ==> pages[k].index == k && pages[k].url == refUrl
  {
    pages := NumberPages(refUrl, sources);
  }
}
