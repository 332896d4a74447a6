/** The host's content model as the three adapters use it (SManga, SChapter,
    Page, an HTTP request), the status normalisation the three share, and
    the outcome of a chapter-list fetch. */
module Model {
  import opened Wrappers
  import opened Text

  /** SManga.status: UNKNOWN = 0, ONGOING = 1, COMPLETED = 2, LICENSED = 3. */
  datatype Status = Unknown | Ongoing | Completed | Licensed

  /** SManga. None is a property never assigned: null for the nullable
      ones, and for url and title (lateinit in the host) a value whose
      reading throws. */
  datatype Manga = Manga(
    url: Option<string>,
    title: Option<string>,
    author: Option<string>,
    description: Option<string>,
    genre: Option<string>,
    status: Status,
    thumbnailUrl: Option<string>)

  /** Page(index, url, imageUrl): url is the chapter page it was read from. */
  datatype Page = Page(index: nat, url: string, imageUrl: string)

  /** The image URLs of a page list, in order. */
  function ImageUrls(pages: seq<Page>): (urls: seq<string>)
    ensures |urls| == |pages| && forall k :: 0 <= k < |pages| ==> urls[k] == pages[k].imageUrl
  {
    seq(|pages|, k requires 0 <= k < |pages| => pages[k].imageUrl)
  }

  /** `map { Page(i++, refUrl, it) }`: the pages in order, numbered from 0,
      all read from refUrl. */
  method NumberPages(refUrl: string, urls: seq<string>) returns (pages: seq<Page>)
    ensures ImageUrls(pages) == urls
    ensures forall k :: 0 <= k < |pages| ==> pages[k].index == k && pages[k].url == refUrl
  {
    pages := [];
    var i := 0;
    while i < |urls|
      invariant 0 <= i <= |urls| && |pages| == i
      invariant forall k :: 0 <= k < i ==> pages[k] == Page(k, refUrl, urls[k])
    {
      pages := pages + [Page(i, refUrl, urls[i])];
      i := i + 1;
    }
  }

  /** A query parameter; a parameter written without "=" has a null value. */
  datatype QueryParam = QueryParam(name: string, value: Option<string>)

  /** An HttpUrl: everything before the "?" and the decoded query. */
  datatype Url = Url(base: string, query: seq<QueryParam>)

  datatype Request =
    | Get(url: Url, headers: map<string, string>)
    | Post(url: Url, form: map<string, string>, headers: map<string, string>)

  /** What fetchChapterList does: fail with a message without any request,
      issue the chapter-list request, or throw before deciding. */
  datatype ChapterFetch =
    | Refused(message: string)
    | Proceed(request: Request)
    | Crashed(exception: string)

  const LicensedMessage: string := "Licensed - No chapters to show"

  const UserAgent: string :=
    "Mozilla/5.0 (Windows NT 10.0; Win64; x64) AppleWebKit/537.36" +
    " (KHTML, like Gecko) Chrome/83.0.4103.61 Safari/537.36"

  /** headersBuilder() of every adapter. */
  const DefaultHeaders: map<string, string> := map["User-Agent" := UserAgent]

  // ---------------------------------------------------------------------
  // Status
  // ---------------------------------------------------------------------

  /** parseStatus: trim, lowercase, then "ongoing" / "completed" / anything
      else. */
  function ParseStatus(text: string): (st: Status)
    ensures st != Licensed
  {
    var key := Lower(Trim(text));
    if key == "ongoing" then Ongoing
    else if key == "completed" then Completed
    else Unknown
  }

  /** The status is decided by the trimmed text alone, whatever its case. */
  lemma ParseStatusNormalises(pre: string, text: string, post: string)
    requires AllWhitespace(pre) && AllWhitespace(post)
    ensures ParseStatus(pre + text + post) == ParseStatus(text)
    ensures ParseStatus(Lower(text)) == ParseStatus(text)
    ensures ParseStatus(text) == Ongoing <==> Lower(Trim(text)) == "ongoing"
    ensures ParseStatus(text) == Completed <==> Lower(Trim(text)) == "completed"
  {
    TrimIgnoresPadding(pre, text, post);
    TrimLower(text);
    LowerTwice(Trim(text));
  }

  lemma ParseStatusExample()
    ensures ParseStatus(" Completed ") == Completed
  {
    assert Lower(Trim(" Completed ")) == "completed" by {
      assert " " + "Completed" + " " == " Completed ";
      TrimIgnoresPadding(" ", "Completed", " ");
      CompletedTrimmed();
      CompletedLowered();
    }
  }

  lemma CompletedTrimmed()
    ensures Trim("Completed") == "Completed"
  {
    assert TrimStart("Completed") == "Completed";
  }

  lemma CompletedLowered()
    ensures Lower("Completed") == "completed"
  {
    var low := Lower("Completed");
    assert low[0] == 'c';
  }

  // ---------------------------------------------------------------------
  // Query parameters (OkHttp's HttpUrl)
  // ---------------------------------------------------------------------

  /** queryParameterNames(): each name once, in order of first appearance. */
  function QueryParameterNames(q: seq<QueryParam>): (names: seq<string>)
    ensures forall i, j :: 0 <= i < j < |names| ==> names[i] != names[j]
    ensures forall i :: 0 <= i < |q| ==> q[i].name in names
    ensures forall n :: n in names ==> exists i :: 0 <= i < |q| && q[i].name == n
    decreases |q|
  {
    if q == [] then []
    else
      var names := QueryParameterNames(q[..|q| - 1]);
      assert forall i :: 0 <= i < |q| - 1 ==> q[i] == q[..|q| - 1][i];
      if q[|q| - 1].name in names then names else names + [q[|q| - 1].name]
  }

  predicate HasParam(q: seq<QueryParam>, name: string) {
    name in QueryParameterNames(q)
  }

  /** queryParameter(name): the value of the first parameter so named; None
      when there is none or its value is null. */
  function QueryParameter(q: seq<QueryParam>, name: string): (v: Option<string>)
    ensures v.Some? ==> exists i :: 0 <= i < |q| && q[i] == QueryParam(name, v)
    ensures forall i :: 0 <= i < |q| && q[i].name == name && NameAbsentBefore(q, name, i) ==> v == q[i].value
    decreases |q|
  {
    if q == [] then None
    else if q[0].name == name then q[0].value
    else
      var v := QueryParameter(q[1..], name);
      assert forall i :: 1 <= i < |q| ==> q[i] == q[1..][i - 1];
      v
  }

  predicate NameAbsentBefore(q: seq<QueryParam>, name: string, i: int)
    requires 0 <= i <= |q|
  {
    forall j :: 0 <= j < i ==> q[j].name != name
  }

  /** A name no parameter carries has no value. */
  lemma AbsentParam(q: seq<QueryParam>, name: string)
    requires !HasParam(q, name)
    ensures QueryParameter(q, name) == None
  {
  }

  /** The names and values of a query of two differently named parameters. */
  lemma QueryOfTwo(a: QueryParam, b: QueryParam)
    requires a.name != b.name
    ensures QueryParameterNames([a, b]) == [a.name, b.name]
    ensures QueryParameter([a, b], a.name) == a.value
    ensures QueryParameter([a, b], b.name) == b.value
  {
    assert [a, b][..1] == [a];
    assert [a][..0] == [];
    assert QueryParameterNames([a]) == [a.name];
    assert [a, b][1..] == [b];
    assert QueryParameter([b], b.name) == b.value;
  }

  /** The same for three differently named parameters. */
  lemma QueryOfThree(a: QueryParam, b: QueryParam, c: QueryParam)
    requires a.name != b.name && a.name != c.name && b.name != c.name
    ensures QueryParameterNames([a, b, c]) == [a.name, b.name, c.name]
    ensures QueryParameter([a, b, c], a.name) == a.value
    ensures QueryParameter([a, b, c], b.name) == b.value
    ensures QueryParameter([a, b, c], c.name) == c.value
  {
    assert [a, b, c][..2] == [a, b];
    QueryOfTwo(a, b);
    assert [a, b, c][1..] == [b, c];
    QueryOfTwo(b, c);
  }

  /** HttpUrl.toString(), leaving percent-encoding out. */
  function Render(u: Url): string {
    u.base + (if u.query == [] then "" else "?" + RenderQuery(u.query))
  }

  /** A rendered URL starts with its base, and adds a "?" part exactly when
      there are parameters. */
  lemma RenderKeepsBase(u: Url)
    ensures |Render(u)| >= |u.base| && Render(u)[..|u.base|] == u.base
    ensures Render(u) == u.base <==> u.query == []
    ensures u.query != [] ==> Render(u)[|u.base|] == '?'
  {
  }

  lemma RenderOne(base: string, name: string, value: string)
    ensures Render(Url(base, [QueryParam(name, Some(value))])) == base + "?" + name + "=" + value
  {
  }

  lemma RenderTwo(base: string, a: string, va: string, b: string, vb: string)
    ensures Render(Url(base, [QueryParam(a, Some(va)), QueryParam(b, Some(vb))])) ==
      base + "?" + a + "=" + va + "&" + b + "=" + vb
  {
    var q := [QueryParam(a, Some(va)), QueryParam(b, Some(vb))];
    assert q[1..] == [QueryParam(b, Some(vb))];
    assert RenderQuery(q[1..]) == b + "=" + vb;
    assert RenderQuery(q) == a + "=" + va + "&" + (b + "=" + vb);
  }

  function RenderQuery(q: seq<QueryParam>): string
    decreases |q|
  {
    if q == [] then ""
    else
      var p := q[0].name + (match q[0].value case Some(v) => "=" + v case None => "");
      if |q| == 1 then p else p + "&" + RenderQuery(q[1..])
  }
}
