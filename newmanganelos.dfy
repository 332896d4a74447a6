/** The NewManganelos adapter: plain GET listings with a "page" query
    parameter, chapter numbers that may carry dots, and details scraped out
    of the HTML text of the description block. */
module Newmanganelos {
  import opened Wrappers
  import opened Text
  import opened Model
  import ChapterName
  import opened ChapterOrder

  const Protocol: string := "http:"
  const BaseUrl: string := Protocol + "//manganelos.com"

  const NullPointer: string := "NullPointerException"
  const OutOfBounds: string := "StringIndexOutOfBoundsException"
  const Uninitialized: string := "UninitializedPropertyAccessException"

  // ---------------------------------------------------------------------
  // Listing and search requests
  // ---------------------------------------------------------------------

  /** The page a listing URL asks the site for: its "page" parameter, or the
      first page where there is none. */
  function RequestedPage(u: Url): Option<int> {
    match QueryParameter(u.query, "page")
    case None => Some(1)
    case Some(v) => ParseInt32(v)
  }

  /** popularMangaRequest: "/popular-manga" for the first page,
      "/popular-manga/?page=<page>" for the others. */
  function PopularMangaRequest(page: int): (r: Request)
    ensures r.Get? && r.headers == DefaultHeaders
    ensures page == 1 ==> r.url == Url(BaseUrl + "/popular-manga", [])
    ensures page != 1 ==> r.url == Url(BaseUrl + "/popular-manga/", [QueryParam("page", Some(IntToString(page)))])
  {
    if page == 1 then Get(Url(BaseUrl + "/popular-manga", []), DefaultHeaders)
    else Get(Url(BaseUrl + "/popular-manga/", [QueryParam("page", Some(IntToString(page)))]), DefaultHeaders)
  }

  /** latestUpdatesRequest: "/latest-manga" for the first page,
      "/latest-manga?page=<page>" for the others. */
  function LatestUpdatesRequest(page: int): (r: Request)
    ensures r.Get? && r.headers == DefaultHeaders
    ensures page == 1 ==> r.url == Url(BaseUrl + "/latest-manga", [])
    ensures page != 1 ==> r.url == Url(BaseUrl + "/latest-manga", [QueryParam("page", Some(IntToString(page)))])
  {
    if page == 1 then Get(Url(BaseUrl + "/latest-manga", []), DefaultHeaders)
    else Get(Url(BaseUrl + "/latest-manga", [QueryParam("page", Some(IntToString(page)))]), DefaultHeaders)
  }

  /** searchMangaRequest: "/search" with the lowercased query in "q" and the
      page in "page". */
  function SearchMangaRequest(page: int, query: string): (r: Request)
    ensures r.Get? && r.headers == DefaultHeaders && r.url.base == BaseUrl + "/search"
  {
    Get(Url(BaseUrl + "/search", [QueryParam("q", Some(Lower(query))), QueryParam("page", Some(IntToString(page)))]),
      DefaultHeaders)
  }

  /** Every listing and search URL asks the site for the page it was built
      for, and a search sends the query lowercased. */
  lemma RequestsAskForTheirPage(page: int, query: string)
    requires IsInt32(page)
    ensures RequestedPage(PopularMangaRequest(page).url) == Some(page)
    ensures RequestedPage(LatestUpdatesRequest(page).url) == Some(page)
    ensures RequestedPage(SearchMangaRequest(page, query).url) == Some(page)
    ensures QueryParameter(SearchMangaRequest(page, query).url.query, "q") == Some(Lower(query))
  {
    IntToStringRoundTrip(page);
    var q := SearchMangaRequest(page, query).url.query;
    QueryOfTwo(q[0], q[1]);
  }

  // ---------------------------------------------------------------------
  // Chapters
  // ---------------------------------------------------------------------

  /** fetchChapterList: a licensed manga fails with the "Licensed" message
      and issues no request; any other gets the default chapter-list
      request, a GET of its page (which throws when its url was never set). */
  function FetchChapterList(manga: Manga): (f: ChapterFetch)
    ensures f.Refused? <==> manga.status == Licensed
    ensures f.Refused? ==> f.message == LicensedMessage
    ensures f.Proceed? <==> manga.status != Licensed && manga.url.Some?
    ensures f.Proceed? ==> f.request == Get(Url(BaseUrl + manga.url.value, []), DefaultHeaders)
  {
    if manga.status == Licensed then Refused(LicensedMessage)
    else
      match manga.url
      case None => Crashed(Uninitialized)
      case Some(url) => Proceed(Get(Url(BaseUrl + url, []), DefaultHeaders))
  }

  /** What chapterFromElement reads from one chapter link: its text and its
      target. */
  datatype ChapterLink = ChapterLink(text: string, href: string)

  /** `parseChapterName(chapter.name).split(" ")[1].toFloat()` on a name
      already normalised, or 0 where that throws: the token's value when it
      parses. */
  function NumberOfName(name: string): (x: real)
    requires ChapterName.IsChapterName(name, true)
    ensures x == ParseDecimal(name[8..]).GetOr(0.0) && x >= 0.0
  {
    ChapterName.ChapterNameIsFixed(name, true);
    ChapterName.NumberOfChapterName(name, true, 0.0);
    var again := ChapterName.ParseChapterName(name, true);
    if again.Some? then ChapterName.NumberFromName(again.value, 0.0) else 0.0
  }

  /** chapterFromElement: the normalised name; its number, read back from
      the name, or 0 where the token does not parse; no upload date. A link
      text without "Chapter <digits or dots>" throws. */
  function ChapterFromElement(link: ChapterLink): (r: Result<Chapter>)
    ensures r.Ok? <==> ChapterName.ParseChapterName(link.text, true).Some?
    ensures r.Ok? ==> ChapterName.IsChapterName(r.value.name, true)
    ensures r.Ok? ==> r.value.number == ParseDecimal(r.value.name[8..]).GetOr(0.0) && r.value.number >= 0.0
    ensures r.Ok? ==> r.value.url == link.href && r.value.dateUpload == 0
    ensures r.Ok? ==> r.value.name == ChapterName.ParseChapterName(link.text, true).value
  {
    match ChapterName.ParseChapterName(link.text, true)
    case None => Err(NullPointer)
    case Some(name) => Ok(Chapter(name, NumberOfName(name), link.href, 0))
  }

  /** A token with more than one dot, such as "1.2.3", gets number 0; a
      token of digits gets its value. */
  lemma ChapterNumberFallback(link: ChapterLink)
    requires ChapterFromElement(link).Ok?
    ensures var c := ChapterFromElement(link).value;
      (multiset(c.name[8..])['.'] >= 2 ==> c.number == 0.0) &&
      (AllDigits(c.name[8..]) ==> c.number == DigitsValue(c.name[8..]) as real) &&
      c.number >= 0.0
  {
    var c := ChapterFromElement(link).value;
    assert c.name[8..] != [] by {
      ChapterName.NumberOfChapterName(c.name, true, 0.0);
    }
  }

  /** chapterListParse: map, then distinct, sort and reverse. It throws
      exactly when some link's text has no chapter name. */
  function ChapterListParse(links: seq<ChapterLink>): (r: Result<seq<Chapter>>)
    ensures r.Ok? <==> forall i :: 0 <= i < |links| ==> ChapterName.ParseChapterName(links[i].text, true).Some?
  {
    match MapAll(ChapterFromElement, links)
    case Err(e) => Err(e)
    case Ok(cs) => Ok(Normalize(cs))
  }

  /** The chapter list is newest first, has one chapter per name and number,
      and every chapter has an upload date of 0 and a normalised name. */
  lemma ChapterListShape(links: seq<ChapterLink>)
    requires ChapterListParse(links).Ok?
    ensures Descending(ChapterListParse(links).value)
    ensures UniqueKeys(ChapterListParse(links).value)
    ensures forall i :: 0 <= i < |ChapterListParse(links).value| ==>
      var c := ChapterListParse(links).value[i];
      ChapterName.IsChapterName(c.name, true) && c.dateUpload == 0 && c.number >= 0.0
  {
    var cs := MapAll(ChapterFromElement, links).value;
    NormalizeKeepsFirstOccurrences(cs);
    NormalizeFromInput(cs);
    forall c | c in cs
      ensures ChapterName.IsChapterName(c.name, true) && c.dateUpload == 0 && c.number >= 0.0
    {
      var i :| 0 <= i < |cs| && cs[i] == c;
    }
  }

  /** Every link's (name, number) is in the chapter list. */
  lemma ChapterListCoversLinks(links: seq<ChapterLink>)
    requires ChapterListParse(links).Ok?
    ensures forall j :: 0 <= j < |links| ==> HasKey(ChapterListParse(links).value, Key(ChapterFromElement(links[j]).value))
  {
    var cs := MapAll(ChapterFromElement, links).value;
    NormalizeCovers(cs);
    forall j | 0 <= j < |links| ensures HasKey(Normalize(cs), Key(ChapterFromElement(links[j]).value)) {
      assert cs[j] == ChapterFromElement(links[j]).value;
    }
  }

  /** Every chapter in the list is the chapter of one of the links. */
  lemma ChapterListFromLinks(links: seq<ChapterLink>)
    requires ChapterListParse(links).Ok?
    ensures forall i :: 0 <= i < |ChapterListParse(links).value| ==>
      exists j :: 0 <= j < |links| && ChapterFromElement(links[j]) == Ok(ChapterListParse(links).value[i])
  {
    var cs := MapAll(ChapterFromElement, links).value;
    var r := Normalize(cs);
    NormalizeFromInput(cs);
    forall i | 0 <= i < |r|
      ensures exists j :: 0 <= j < |links| && ChapterFromElement(links[j]) == Ok(r[i])
    {
      var j :| 0 <= j < |cs| && cs[j] == r[i];
      assert ChapterFromElement(links[j]).Ok?;
    }
  }

  // ---------------------------------------------------------------------
  // Details
  // ---------------------------------------------------------------------

  /** What getSubString returns: the text after the first `start` up to
      the first `end` that follows it, without the character just before that `end`; ""
      when either marker is missing. When `end` follows `start` immediately
      the substring would end before it starts and subSequence throws. */
  function SubString(text: string, start: string, end: string): (r: Result<string>)
    ensures IndexOf(text, start, 0) == -1 ==> r == Ok("")
    ensures r.Err? <==>
      (IndexOf(text, start, 0) >= 0 &&
       IndexOf(text, end, IndexOf(text, start, 0) + |start|) == IndexOf(text, start, 0) + |start|)
    ensures r.Err? ==> r.error == OutOfBounds
    ensures r.Ok? && r.value != [] ==>
      var p := IndexOf(text, start, 0) + |start|;
      p + |r.value| < |text| && text[p..p + |r.value|] == r.value && IndexOf(text, end, p) == p + |r.value| + 1
    ensures r.Ok? && end != [] ==> !Contains(r.value, end)
  {
    var startPos := IndexOf(text, start, 0);
    if startPos == -1 then Ok("")
    else
      var p := startPos + |start|;
      var endPos := IndexOf(text, end, p);
      if endPos == -1 then Ok("")
      else if endPos - 1 < p then Err(OutOfBounds)
      else
        NoEndBefore(text, end, p, endPos);
        Ok(text[p..endPos - 1])
  }

  /** What lies before the first end marker after p does not contain it. */
  lemma NoEndBefore(text: string, end: string, p: nat, endPos: int)
    requires p <= |text| && endPos == IndexOf(text, end, p) && p <= endPos - 1
    ensures !Contains(text[p..endPos - 1], end)
  {
    var v := text[p..endPos - 1];
    forall k | OccursAt(v, end, k) ensures OccursAt(text, end, p + k) {
      OccursInSlice(text, end, p, endPos - 1, k);
    }
  }

  /** The inverse view: a text made of `start`, a value, one more
      character and `end` gives back the value, provided that `start` first
      occurs there and `end` does not occur earlier after it. */
  lemma SubStringRecovers(text: string, pre: string, start: string, v: string, c: char, end: string, post: string)
    requires text == pre + start + v + [c] + end + post
    requires forall k :: 0 <= k < |pre| ==> !OccursAt(text, start, k)
    requires forall k :: |pre + start| <= k <= |pre + start + v| ==> !OccursAt(text, end, k)
    ensures SubString(text, start, end) == Ok(v)
  {
    var p := |pre| + |start|;
    var e := p + |v| + 1;
    SixParts(text, pre, start, v, c, end, post);
    IndexOfAt(text, start, 0, |pre|);
    IndexOfAt(text, end, p, e);
    SubStringBetween(text, start, end, |pre|, e, v);
  }

  lemma SixParts(text: string, pre: string, start: string, v: string, c: char, end: string, post: string)
    requires text == pre + start + v + [c] + end + post
    ensures |pre| + |start| + |v| + 1 + |end| <= |text|
    ensures OccursAt(text, start, |pre|)
    ensures text[|pre| + |start|..|pre| + |start| + |v|] == v
    ensures OccursAt(text, end, |pre| + |start| + |v| + 1)
  {
    var p := |pre| + |start|;
    var e := p + |v| + 1;
    forall k | 0 <= k < |start| ensures text[|pre| + k] == start[k] { }
    assert text[|pre|..p] == start;
    forall k | 0 <= k < |v| ensures text[p + k] == v[k] { }
    assert text[p..p + |v|] == v;
    forall k | 0 <= k < |end| ensures text[e + k] == end[k] { }
    assert text[e..e + |end|] == end;
  }

  /** Where both markers are found in order, the result is what lies
      between them less one character. */
  lemma SubStringBetween(text: string, start: string, end: string, s0: nat, e: nat, v: string)
    requires s0 + |start| <= |text| && e <= |text|
    requires IndexOf(text, start, 0) == s0 && IndexOf(text, end, s0 + |start|) == e
    requires s0 + |start| <= e - 1 && text[s0 + |start|..e - 1] == v
    ensures SubString(text, start, end) == Ok(v)
  {
  }

  /** getSubString, its positions adjusted step by step. */
  method GetSubString(text: string, start: string, end: string) returns (r: Result<string>)
    ensures r == SubString(text, start, end)
  {
    var startPos := IndexOf(text, start, 0);
    if startPos == -1 {
      return Ok("");
    }
    startPos := startPos + |start|;
    var endPos := IndexOf(text, end, startPos);
    if endPos == -1 {
      return Ok("");
    }
    endPos := endPos - 1;
    if endPos < startPos {
      return Err(OutOfBounds);
    }
    r := Ok(text[startPos..endPos]);
  }

  /** fixThumbURL: a protocol-relative URL gets "http:" in front. */
  function FixThumbUrl(thumbUrl: string): (r: string)
    ensures StartsWith(thumbUrl, "//") ==> r == Protocol + thumbUrl
    ensures !StartsWith(thumbUrl, "//") ==> r == thumbUrl
  {
    if StartsWith(thumbUrl, "//") then Protocol + thumbUrl else thumbUrl
  }

  /** A fixed URL is never protocol-relative, so fixing is idempotent. */
  lemma FixThumbUrlIdempotent(thumbUrl: string)
    ensures !StartsWith(FixThumbUrl(thumbUrl), "//")
    ensures FixThumbUrl(FixThumbUrl(thumbUrl)) == FixThumbUrl(thumbUrl)
  {
    if StartsWith(thumbUrl, "//") {
      assert FixThumbUrl(thumbUrl)[0] == 'h';
    }
  }

  const AuthorMarker: string := "<span>Author(s): </span>"
  const StatusMarker: string := "<span>Status: </span>"
  const LineBreak: string := "<br>"

  /** What mangaDetailsParse reads from a details page: the text of the
      genre links (joined with spaces), the HTML of the description block,
      the title, the cover's src and the summary. */
  datatype DetailsPage = DetailsPage(
    genreText: string,
    tableBody: string,
    title: string,
    coverSrc: string,
    description: string)

  /** Each piece trimmed. */
  function TrimAll(xs: seq<string>): (r: seq<string>)
    ensures |r| == |xs| && forall i :: 0 <= i < |xs| ==> r[i] == Trim(xs[i])
  {
    seq(|xs|, i requires 0 <= i < |xs| => Trim(xs[i]))
  }

  /** The list a field's pieces give once each is trimmed and they are
      joined with joinToString's ", ". */
  function TrimmedList(field: string, sep: string): string
    requires sep != []
  {
    Join(TrimAll(Split(field, sep)), ", ")
  }

  /** What mangaDetailsParse builds from a page: the genres are the
      "; "-separated pieces of the genre text and the authors the
      ";"-separated pieces of the author field, each trimmed; the status
      comes from the status field; the url is left unset. */
  function Details(page: DetailsPage): (r: Result<Manga>)
    ensures r.Err? <==>
      SubString(page.tableBody, AuthorMarker, LineBreak).Err? ||
      SubString(page.tableBody, StatusMarker, LineBreak).Err?
    ensures r.Ok? ==> r.value.status != Licensed && r.value.url.None?
    ensures r.Ok? ==>
      r.value.author == Some(TrimmedList(SubString(page.tableBody, AuthorMarker, LineBreak).value, ";")) &&
      r.value.genre == Some(TrimmedList(page.genreText, "; ")) &&
      r.value.status == ParseStatus(SubString(page.tableBody, StatusMarker, LineBreak).value) &&
      r.value.thumbnailUrl == Some(FixThumbUrl(page.coverSrc))
    ensures r.Ok? ==> r.value.title == Some(page.title) && r.value.description == Some(page.description)
  {
    var author := SubString(page.tableBody, AuthorMarker, LineBreak);
    var status := SubString(page.tableBody, StatusMarker, LineBreak);
    if author.Err? then Err(author.error)
    else if status.Err? then Err(status.error)
    else Ok(Manga(None, Some(page.title), Some(TrimmedList(author.value, ";")), Some(page.description),
                  Some(TrimmedList(page.genreText, "; ")), ParseStatus(status.value), Some(FixThumbUrl(page.coverSrc))))
  }

  /** A page without author and status fields gets an empty author and an
      unknown status. */
  lemma DetailsWithoutFields(page: DetailsPage)
    requires IndexOf(page.tableBody, AuthorMarker, 0) == -1 && IndexOf(page.tableBody, StatusMarker, 0) == -1
    ensures Details(page).Ok?
    ensures Details(page).value.author == Some("") && Details(page).value.status == Unknown
  {
    assert Split("", ";") == [""];
    assert Trim("") == "";
    assert TrimAll([""]) == [""];
    assert Lower("") == "";
  }

  /** The forEach that adds each trimmed piece to a list. */
  method TrimEach(pieces: seq<string>) returns (out: seq<string>)
    ensures out == TrimAll(pieces)
  {
    out := [];
    for i := 0 to |pieces|
      invariant |out| == i && forall k :: 0 <= k < i ==> out[k] == Trim(pieces[k])
    {
      out := out + [Trim(pieces[i])];
    }
  }

  /** mangaDetailsParse, step by step; either getSubString can throw, and
      then the whole parse fails. */
  method MangaDetailsParse(page: DetailsPage) returns (r: Result<Manga>)
    ensures r == Details(page)
  {
    var genres := TrimEach(Split(page.genreText, "; "));
    var authorField := GetSubString(page.tableBody, AuthorMarker, LineBreak);
    if authorField.Err? {
      return Err(authorField.error);
    }
    var authors := TrimEach(Split(authorField.value, ";"));
    var statusField := GetSubString(page.tableBody, StatusMarker, LineBreak);
    if statusField.Err? {
      return Err(statusField.error);
    }
    r := Ok(Manga(None, Some(page.title), Some(Join(authors, ", ")), Some(page.description),
                  Some(Join(genres, ", ")), ParseStatus(statusField.value), Some(FixThumbUrl(page.coverSrc))));
  }

  // ---------------------------------------------------------------------
  // Pages
  // ---------------------------------------------------------------------

  /** pageListParse: one page per comma-separated piece of the image list,
      numbered from 0; joining the image URLs back with commas gives the
      list, and there is one page more than there are commas. */
  method PageListParse(refUrl: string, arrayData: string) returns (pages: seq<Page>)
    ensures |pages| == multiset(arrayData)[','] + 1
    ensures forall k :: 0 <= k < |pages| ==> pages[k].index == k && pages[k].url == refUrl
    ensures ImageUrls(pages) == Split(arrayData, ",")
    ensures Join(ImageUrls(pages), ",") == arrayData
    ensures forall k :: 0 <= k < |pages| ==> !Contains(pages[k].imageUrl, ",")
  {
    var pieces := Split(arrayData, ",");
    pages := NumberPages(refUrl, pieces);
    CommaCount(arrayData);
    CommaPieces(arrayData, pages);
  }

  /** Pages whose image URLs are the comma-separated pieces of the data
      join back to it, and no URL contains a comma. */
  lemma CommaPieces(arrayData: string, pages: seq<Page>)
    requires ImageUrls(pages) == Split(arrayData, ",")
    ensures Join(ImageUrls(pages), ",") == arrayData
    ensures forall k :: 0 <= k < |pages| ==> !Contains(pages[k].imageUrl, ",")
  {
    var urls := ImageUrls(pages);
    forall k | 0 <= k < |pages| ensures !Contains(pages[k].imageUrl, ",") {
      assert pages[k].imageUrl == urls[k];
    }
  }

  /** split(",") gives one piece more than there are commas. */
  lemma CommaCount(s: string)
    ensures |Split(s, ",")| == multiset(s)[','] + 1
  {
    assert [','] == ",";
    SplitCount(s, ',');
  }
}
