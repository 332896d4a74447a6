# Three manga-site adapters, modelled in Dafny

This project models the core of three site adapters of a manga reader:
Mangakomi, NewManganelos and Manganelo. Each adapter turns listing and
search requests into site URLs, and guards the chapter-list fetch. It reads
chapter names, numbers and dates from chapter rows. It parses a details page
into a manga record and a reader page into a numbered page list.

Each HTML document is taken as already reduced to the strings the adapter
selects from it. The model covers what the adapter does with those strings.

Modules:

- `Wrappers`: Option and Result (a thrown exception is a Result failure
  carrying its name), and Kotlin's `map` with a transform that may throw.
- `Text`: the Kotlin and Java string operations the adapters use:
  trim, toLowerCase, replace, indexOf, split, joinToString, Int.toString,
  String.toInt, and String.toFloat on tokens of digits and dots.
- `Model`: the host's records (SManga, Page, a request), the shared status
  normalisation, and OkHttp's query-parameter lookup.
- `ChapterName`: the chapter-name regular expression under Java's `find`
  semantics, and parseChapterName.
- `ChapterOrder`: the distinctBy, sortedBy and reversed chain.
- `Mangakomi`, `Newmanganelos`, `Manganelo`: the three adapters.

`distinctBy` keeps the first chapter seen for each (name, number).
Manganelo's chapter name is the raw link text, not the normalised one.

## Model

| member | source | states |
|---|---|---|
| Model.ParseStatus | src/en/Mangakomi/src/eu/kanade/tachiyomi/extension/en/mangakomi/Mangakomi.kt:256-262 | The status is never LICENSED: it is ONGOING, COMPLETED or UNKNOWN. |
| Model.ParseStatusNormalises | src/en/NewManganelos/src/eu/kanade/tachiyomi/extension/en/newmanganelos/Newmanganelos.kt:116-122 | Surrounding whitespace and letter case never change the status. The status is ONGOING exactly when the trimmed, lowercased text is "ongoing", and COMPLETED exactly when it is "completed". |
| Model.ParseStatusExample | src/en/Manganelo/src/eu/kanade/tachiyomi/extension/en/manganelo/Manganelo.kt:113-119 | " Completed " maps to COMPLETED. |
| Model.QueryParameterNames | src/en/Mangakomi/src/eu/kanade/tachiyomi/extension/en/mangakomi/Mangakomi.kt:61-64 | Gives each parameter name once, and only names the query carries. |
| Model.QueryParameter | src/en/Mangakomi/src/eu/kanade/tachiyomi/extension/en/mangakomi/Mangakomi.kt:63 | The value found belongs to a parameter of that name, and it is the value of the first such parameter. |
| Model.QueryOfTwo | src/en/NewManganelos/src/eu/kanade/tachiyomi/extension/en/newmanganelos/Newmanganelos.kt:66-73 | Two differently named parameters are listed in order and read back unchanged. |
| Model.RenderKeepsBase | src/en/Mangakomi/src/eu/kanade/tachiyomi/extension/en/mangakomi/Mangakomi.kt:94 | HttpUrl.toString(): the rendered URL starts with its base and has a "?" part exactly when it has parameters. |
| Wrappers.MapAll | src/en/Manganelo/src/eu/kanade/tachiyomi/extension/en/manganelo/Manganelo.kt:88-91 | Kotlin `map` with a throwing transform. The list is built exactly when no element fails, one result per element and in order. Otherwise it fails with the first failing element's error. |
| Text.Trim | src/en/NewManganelos/src/eu/kanade/tachiyomi/extension/en/newmanganelos/Newmanganelos.kt:153-158 | The result neither starts nor ends with whitespace. |
| Text.TrimKeepsCore | src/en/NewManganelos/src/eu/kanade/tachiyomi/extension/en/newmanganelos/Newmanganelos.kt:153-158 | Trimming whitespace padding around a core that neither starts nor ends with whitespace gives back exactly that core. |
| Text.TrimIgnoresPadding | src/en/NewManganelos/src/eu/kanade/tachiyomi/extension/en/newmanganelos/Newmanganelos.kt:116-118 | Whitespace added around a text never changes what trim returns. |
| Text.TrimLower | src/en/NewManganelos/src/eu/kanade/tachiyomi/extension/en/newmanganelos/Newmanganelos.kt:118 | Trimming and lowercasing commute. |
| Text.Lower | src/en/Mangakomi/src/eu/kanade/tachiyomi/extension/en/mangakomi/Mangakomi.kt:159 | Same length as the input. No uppercase letter is left, and every other character is unchanged. |
| Text.ReplaceChar | src/en/Manganelo/src/eu/kanade/tachiyomi/extension/en/manganelo/Manganelo.kt:63 | Same length as the input. Every occurrence of the replaced character becomes the replacement, and every other character is unchanged. |
| Text.IndexOf | src/en/NewManganelos/src/eu/kanade/tachiyomi/extension/en/newmanganelos/Newmanganelos.kt:124-134 | Returns -1 or a position where the pattern occurs at or after `from`. There is no occurrence between `from` and that position. |
| Text.Split | src/en/NewManganelos/src/eu/kanade/tachiyomi/extension/en/newmanganelos/Newmanganelos.kt:153-158 | Gives at least one piece. No piece contains the separator, and joining the pieces with it gives back the input. |
| Text.SplitCount | src/en/NewManganelos/src/eu/kanade/tachiyomi/extension/en/newmanganelos/Newmanganelos.kt:205-209 | Splitting on one character gives one piece more than the number of times that character occurs. |
| Text.FirstPieceOfJoin | src/en/Mangakomi/src/eu/kanade/tachiyomi/extension/en/mangakomi/Mangakomi.kt:173-178 | The first piece of a ", "-joined list is its first element, when that element contains no ", ". |
| Text.SplitJoin | src/en/Manganelo/src/eu/kanade/tachiyomi/extension/en/manganelo/Manganelo.kt:141-142 | split(", ") undoes joinToString() on a non-empty list whose elements contain no ", ". |
| Text.ParseInt32 | src/en/Mangakomi/src/eu/kanade/tachiyomi/extension/en/mangakomi/Mangakomi.kt:63 | A value read comes from plain digits, or from a sign followed by at least one digit, and lies in the 32-bit range; a lone "+" or "-" is rejected. Digits, "+digits" and "-digits" read as their value when it fits in an Int and fail when it does not. |
| Text.IntToStringRoundTrip | src/en/Mangakomi/src/eu/kanade/tachiyomi/extension/en/mangakomi/Mangakomi.kt:101 | Int.toString() is read back by toInt() as the same value. |
| Text.ParseDecimal | src/en/NewManganelos/src/eu/kanade/tachiyomi/extension/en/newmanganelos/Newmanganelos.kt:106-110 | A digit token reads as its value and a token with two dots is rejected. A value read is never negative. |
| Text.ParseDecimalOneDot | src/en/NewManganelos/src/eu/kanade/tachiyomi/extension/en/newmanganelos/Newmanganelos.kt:106-110 | A token w.f with one dot reads as w plus f over 10 to the length of f; a lone "." is rejected. |
| ChapterName.FindFrom | src/en/Mangakomi/src/eu/kanade/tachiyomi/extension/en/mangakomi/Mangakomi.kt:32 | Regex.find: there is no match exactly when it reports none. The match it reports is the rightmost one on the first line that has a match. |
| ChapterName.ParseChapterName | src/en/Mangakomi/src/eu/kanade/tachiyomi/extension/en/mangakomi/Mangakomi.kt:220-222 | Succeeds exactly when the text contains "Chapter", a \s and a token character. It then yields "Chapter " followed by the token run that starts at the first match reported by find. |
| ChapterName.ChapterNameIsFixed | src/en/NewManganelos/src/eu/kanade/tachiyomi/extension/en/newmanganelos/Newmanganelos.kt:89-91 | A normalised name is its own normal form. |
| ChapterName.ParseChapterNameIdempotent | src/en/NewManganelos/src/eu/kanade/tachiyomi/extension/en/newmanganelos/Newmanganelos.kt:105-107 | Normalising a normalised name returns it unchanged. |
| ChapterName.SplitChapterName | src/en/Mangakomi/src/eu/kanade/tachiyomi/extension/en/mangakomi/Mangakomi.kt:240 | split(" ") of a normalised name is ["Chapter", token]. |
| ChapterName.NumberOfChapterName | src/en/Mangakomi/src/eu/kanade/tachiyomi/extension/en/mangakomi/Mangakomi.kt:238-243 | The number read from the second piece is the token's value, or the fallback when the token does not parse. A digit-only token always has its value. |
| ChapterOrder.DistinctByKey | src/en/Mangakomi/src/eu/kanade/tachiyomi/extension/en/mangakomi/Mangakomi.kt:228 | distinctBy (name, number): the keys are unique, every element comes from the input, and every input key is kept. |
| ChapterOrder.DistinctByKeyKeepsFirst | src/en/Mangakomi/src/eu/kanade/tachiyomi/extension/en/mangakomi/Mangakomi.kt:228 | distinctBy keeps exactly the first occurrence of each key, in input order. |
| ChapterOrder.SortByNumber | src/en/Mangakomi/src/eu/kanade/tachiyomi/extension/en/mangakomi/Mangakomi.kt:229 | sortedBy number: the result is ascending and a permutation of the input. |
| ChapterOrder.SortStable | src/en/Mangakomi/src/eu/kanade/tachiyomi/extension/en/mangakomi/Mangakomi.kt:229 | The sort is stable: chapters with equal numbers keep their relative order. |
| ChapterOrder.Reverse | src/en/Mangakomi/src/eu/kanade/tachiyomi/extension/en/mangakomi/Mangakomi.kt:230 | reversed: the element at i moves to the mirrored position. |
| ChapterOrder.Normalize | src/en/Mangakomi/src/eu/kanade/tachiyomi/extension/en/mangakomi/Mangakomi.kt:224-231 | The list distinctBy, sortedBy and reversed produce is in non-increasing number order. |
| ChapterOrder.NormalizeKeepsFirstOccurrences | src/en/Mangakomi/src/eu/kanade/tachiyomi/extension/en/mangakomi/Mangakomi.kt:224-231 | The result has unique keys and is a permutation of the first occurrences. |
| ChapterOrder.NormalizeFromInput | src/en/NewManganelos/src/eu/kanade/tachiyomi/extension/en/newmanganelos/Newmanganelos.kt:93-99 | Every output chapter is an input chapter. |
| ChapterOrder.NormalizeCovers | src/en/NewManganelos/src/eu/kanade/tachiyomi/extension/en/newmanganelos/Newmanganelos.kt:93-99 | Every input (name, number) key appears in the output. |
| ChapterOrder.NormalizeTies | src/en/Mangakomi/src/eu/kanade/tachiyomi/extension/en/mangakomi/Mangakomi.kt:224-231 | Chapters that share a number come out in the reverse of their first-occurrence order. |
| Mangakomi.StrippedQuery | src/en/Mangakomi/src/eu/kanade/tachiyomi/extension/en/mangakomi/Mangakomi.kt:76-81 | The stripped query has no page parameter. Every other name is kept, with its first value. |
| Mangakomi.StrippedIdempotent | src/en/Mangakomi/src/eu/kanade/tachiyomi/extension/en/mangakomi/Mangakomi.kt:76-81 | Stripping twice is stripping once. |
| Mangakomi.MetaKeyValues | src/en/Mangakomi/src/eu/kanade/tachiyomi/extension/en/mangakomi/Mangakomi.kt:64-73 | meta_key is "_latest_update" for m_orderby=latest and "_wp_manga_views" for views. It is "" for any other value or when the parameter is absent. |
| Mangakomi.LoadMoreFormPage | src/en/Mangakomi/src/eu/kanade/tachiyomi/extension/en/mangakomi/Mangakomi.kt:97-126 | The form's page reads back as N. It uses the search template iff the URL has an "s" parameter, and then vars[s] is that value ("null" when valueless). Otherwise vars[meta_key] is the mapped key. |
| Mangakomi.SearchForm | src/en/Mangakomi/src/eu/kanade/tachiyomi/extension/en/mangakomi/Mangakomi.kt:98-111 | The search form: action madara_load_more, the page as text, the content-search template and vars[s] set to the query; no vars[meta_key]. |
| Mangakomi.ArchiveForm | src/en/Mangakomi/src/eu/kanade/tachiyomi/extension/en/mangakomi/Mangakomi.kt:112-126 | The archive form: action madara_load_more, the page as text, the content-archive template, vars[meta_key] set to the key and vars[orderby] to meta_value_num; no vars[s]. |
| Mangakomi.LoadMoreForm | src/en/Mangakomi/src/eu/kanade/tachiyomi/extension/en/mangakomi/Mangakomi.kt:97-127 | Both branches send action=madara_load_more. |
| Mangakomi.AjaxHeaders | src/en/Mangakomi/src/eu/kanade/tachiyomi/extension/en/mangakomi/Mangakomi.kt:87-95 | The headers of the AJAX POST carry the referer given, x-requested-with=XMLHttpRequest and the site as origin. |
| Mangakomi.Paginated | src/en/Mangakomi/src/eu/kanade/tachiyomi/extension/en/mangakomi/Mangakomi.kt:60-140 | No request that comes out of makePaginatedRequest carries the page parameter. |
| Mangakomi.PaginatedStripsPage | src/en/Mangakomi/src/eu/kanade/tachiyomi/extension/en/mangakomi/Mangakomi.kt:60-140 | No request that comes out of makePaginatedRequest carries the page parameter. It fails exactly when the page parameter is present and its value is null or not an Int. A request without the parameter passes through unchanged. |
| Mangakomi.PaginatedPages | src/en/Mangakomi/src/eu/kanade/tachiyomi/extension/en/mangakomi/Mangakomi.kt:76-138 | With a readable page N: page 1 is a GET of the same base with the original headers whose query is the stripped query, so every other parameter, valueless ones included, is kept with its first value. Any other N is a POST to the AJAX endpoint with action=madara_load_more, a form page that reads back as N, x-requested-with=XMLHttpRequest, and the page-1 URL as referer. |
| Mangakomi.MakePaginatedRequest | src/en/Mangakomi/src/eu/kanade/tachiyomi/extension/en/mangakomi/Mangakomi.kt:60-140 | The step-by-step rebuild (read the page, pick the meta key, copy the other parameters, build the GET or the POST) yields exactly Paginated(req), about which the two lemmas above hold. |
| Mangakomi.ReadPage | src/en/Mangakomi/src/eu/kanade/tachiyomi/extension/en/mangakomi/Mangakomi.kt:63 | The page value read with `!!` and toInt(): null and non-Int values fail with their exceptions, and a value read is a 32-bit Int. |
| Mangakomi.ReadMetaKey | src/en/Mangakomi/src/eu/kanade/tachiyomi/extension/en/mangakomi/Mangakomi.kt:65-73 | The `when` on m_orderby picks exactly MetaKey of the query. |
| Mangakomi.StripQuery | src/en/Mangakomi/src/eu/kanade/tachiyomi/extension/en/mangakomi/Mangakomi.kt:76-81 | The forEach loop builds exactly the stripped query. |
| Mangakomi.ListingQuery | src/en/Mangakomi/src/eu/kanade/tachiyomi/extension/en/mangakomi/Mangakomi.kt:143 | The listing URL carries m_orderby and the page, readable back as N. |
| Mangakomi.PopularMangaRequest | src/en/Mangakomi/src/eu/kanade/tachiyomi/extension/en/mangakomi/Mangakomi.kt:142-148 | Page 1 is a GET of "/?m_orderby=views". Page N is a POST whose meta_key is "_wp_manga_views". |
| Mangakomi.LatestUpdatesRequest | src/en/Mangakomi/src/eu/kanade/tachiyomi/extension/en/mangakomi/Mangakomi.kt:150-156 | Page 1 is a GET of "/manga/?m_orderby=latest". Page N is a POST whose meta_key is "_latest_update". |
| Mangakomi.SearchQuery | src/en/Mangakomi/src/eu/kanade/tachiyomi/extension/en/mangakomi/Mangakomi.kt:158-165 | The search URL carries the lowercased query in "s", the page and post_type. |
| Mangakomi.SearchMangaRequest | src/en/Mangakomi/src/eu/kanade/tachiyomi/extension/en/mangakomi/Mangakomi.kt:158-169 | Page 1 is a GET of the search URL. Page N is a POST whose vars[s] is the lowercased query. |
| Mangakomi.GetMangaId | src/en/Mangakomi/src/eu/kanade/tachiyomi/extension/en/mangakomi/Mangakomi.kt:173-183 | Fails exactly when the genre is null. Otherwise it is the first ", " piece read as an Int when that piece is one, and -1 when it is not. |
| Mangakomi.GenreCarriesMangaId | src/en/Mangakomi/src/eu/kanade/tachiyomi/extension/en/mangakomi/Mangakomi.kt:272-274 | getMangaId reads back the id that mangaDetailsParse pushes in front of the genres. |
| Mangakomi.MissingIdGivesMinusOne | src/en/Mangakomi/src/eu/kanade/tachiyomi/extension/en/mangakomi/Mangakomi.kt:173-183 | Any first genre that holds no ", " and is not an Int (such as the "" pushed in front when the page has no post id) gives -1, whatever genres follow. |
| Mangakomi.ChapterListRequest | src/en/Mangakomi/src/eu/kanade/tachiyomi/extension/en/mangakomi/Mangakomi.kt:185-206 | A POST to the AJAX endpoint with action=manga_get_chapters, the manga id, and the manga page as referer. |
| Mangakomi.FetchChapterList | src/en/Mangakomi/src/eu/kanade/tachiyomi/extension/en/mangakomi/Mangakomi.kt:208-218 | Refused with the Licensed message exactly when the status is LICENSED or getMangaId gives -1. Otherwise it proceeds with the chapter-list request, or throws while reading a null genre or an unset url. |
| Mangakomi.FetchUsesParsedId | src/en/Mangakomi/src/eu/kanade/tachiyomi/extension/en/mangakomi/Mangakomi.kt:185-188 | The request carries the id stored in the genre. |
| Mangakomi.ChapterFromElement | src/en/Mangakomi/src/eu/kanade/tachiyomi/extension/en/mangakomi/Mangakomi.kt:233-254 | Succeeds exactly when the link text has a chapter name, and the name is parseChapterName of the link text. The number is the digit run's value, and a date that does not parse becomes 0. |
| Mangakomi.ChapterListParse | src/en/Mangakomi/src/eu/kanade/tachiyomi/extension/en/mangakomi/Mangakomi.kt:224-231 | The list exists exactly when every item's link text has a chapter name; otherwise the `!!` throws. |
| Mangakomi.ChapterListShape | src/en/Mangakomi/src/eu/kanade/tachiyomi/extension/en/mangakomi/Mangakomi.kt:224-231 | The chapter list is non-increasing in number, unique on (name, number), and every chapter is numbered by its digits. |
| Mangakomi.ChapterListCoversItems | src/en/Mangakomi/src/eu/kanade/tachiyomi/extension/en/mangakomi/Mangakomi.kt:224-231 | Every item's (name, number) appears in the chapter list. |
| Mangakomi.ChapterListFromItems | src/en/Mangakomi/src/eu/kanade/tachiyomi/extension/en/mangakomi/Mangakomi.kt:224-231 | Every chapter in the list is the chapter of one of the items. |
| Mangakomi.MangaDetailsParse | src/en/Mangakomi/src/eu/kanade/tachiyomi/extension/en/mangakomi/Mangakomi.kt:264-290 | The post id is pushed in front of the genres, authors and genres are joined with ", ", and the status is normalised. |
| Mangakomi.PageListParse | src/en/Mangakomi/src/eu/kanade/tachiyomi/extension/en/mangakomi/Mangakomi.kt:329-342 | Pages are numbered 0..n-1 in order, with data-lazy-src preferred over src. |
| Newmanganelos.PopularMangaRequest | src/en/NewManganelos/src/eu/kanade/tachiyomi/extension/en/newmanganelos/Newmanganelos.kt:52-57 | A GET. Page 1 is "/popular-manga" with no page parameter; page N is "/popular-manga/?page=N". |
| Newmanganelos.LatestUpdatesRequest | src/en/NewManganelos/src/eu/kanade/tachiyomi/extension/en/newmanganelos/Newmanganelos.kt:59-64 | A GET. Page 1 is "/latest-manga" with no page parameter; page N is "/latest-manga?page=N". |
| Newmanganelos.SearchMangaRequest | src/en/NewManganelos/src/eu/kanade/tachiyomi/extension/en/newmanganelos/Newmanganelos.kt:66-73 | A GET of "/search". |
| Newmanganelos.RequestsAskForTheirPage | src/en/NewManganelos/src/eu/kanade/tachiyomi/extension/en/newmanganelos/Newmanganelos.kt:52-73 | Every listing and search URL asks for the page it was built for, and a search sends the lowercased query in "q". |
| Newmanganelos.FetchChapterList | src/en/NewManganelos/src/eu/kanade/tachiyomi/extension/en/newmanganelos/Newmanganelos.kt:77-87 | Refused with the Licensed message exactly when the status is LICENSED. Otherwise it proceeds with a GET of the manga page, or throws on an unset url. |
| Newmanganelos.NumberOfName | src/en/NewManganelos/src/eu/kanade/tachiyomi/extension/en/newmanganelos/Newmanganelos.kt:106-110 | The number is the token's decimal value, or 0 when the token does not parse. It is never negative. |
| Newmanganelos.ChapterFromElement | src/en/NewManganelos/src/eu/kanade/tachiyomi/extension/en/newmanganelos/Newmanganelos.kt:102-114 | Succeeds exactly when the link text has a chapter name, and the name is parseChapterName of the link text. The number is the token's value or 0, and the date is always 0. |
| Newmanganelos.ChapterListParse | src/en/NewManganelos/src/eu/kanade/tachiyomi/extension/en/newmanganelos/Newmanganelos.kt:93-100 | The list exists exactly when every link text has a chapter name; otherwise the `!!` throws. |
| Newmanganelos.ChapterNumberFallback | src/en/NewManganelos/src/eu/kanade/tachiyomi/extension/en/newmanganelos/Newmanganelos.kt:106-110 | A token with two or more dots gets 0, and a digit token gets its value. |
| Newmanganelos.ChapterListShape | src/en/NewManganelos/src/eu/kanade/tachiyomi/extension/en/newmanganelos/Newmanganelos.kt:93-100 | The chapter list is non-increasing in number and unique on (name, number). Every chapter has date 0 and a normalised name. |
| Newmanganelos.ChapterListCoversLinks | src/en/NewManganelos/src/eu/kanade/tachiyomi/extension/en/newmanganelos/Newmanganelos.kt:93-100 | Every link's (name, number) appears in the chapter list. |
| Newmanganelos.ChapterListFromLinks | src/en/NewManganelos/src/eu/kanade/tachiyomi/extension/en/newmanganelos/Newmanganelos.kt:93-100 | Every chapter in the list is the chapter of one of the links. |
| Newmanganelos.SubString | src/en/NewManganelos/src/eu/kanade/tachiyomi/extension/en/newmanganelos/Newmanganelos.kt:124-134 | Gives "" when the start marker is missing, and fails exactly when the end marker follows the start marker at once. A non-empty result is the text after the start marker up to one character before the end marker, and no result contains the end marker. |
| Newmanganelos.SubStringBetween | src/en/NewManganelos/src/eu/kanade/tachiyomi/extension/en/newmanganelos/Newmanganelos.kt:124-134 | With the first start marker at s0 and the first end marker after it at e, the result is exactly the text from the end of that start marker up to e - 1. |
| Newmanganelos.SubStringRecovers | src/en/NewManganelos/src/eu/kanade/tachiyomi/extension/en/newmanganelos/Newmanganelos.kt:124-134 | start + v + one character + end gives back v, when those are the first occurrences. |
| Newmanganelos.GetSubString | src/en/NewManganelos/src/eu/kanade/tachiyomi/extension/en/newmanganelos/Newmanganelos.kt:124-134 | The step-by-step positions compute SubString. |
| Newmanganelos.FixThumbUrl | src/en/NewManganelos/src/eu/kanade/tachiyomi/extension/en/newmanganelos/Newmanganelos.kt:136-141 | Prepends "http:" exactly when the URL starts with "//". Otherwise it is the identity. |
| Newmanganelos.FixThumbUrlIdempotent | src/en/NewManganelos/src/eu/kanade/tachiyomi/extension/en/newmanganelos/Newmanganelos.kt:136-141 | A fixed URL is never protocol-relative, so fixing twice is fixing once. |
| Newmanganelos.Details | src/en/NewManganelos/src/eu/kanade/tachiyomi/extension/en/newmanganelos/Newmanganelos.kt:143-170 | Fails exactly when either getSubString throws. Otherwise the author is the ";"-pieces of the author field, trimmed and joined with ", "; the genre is the "; "-pieces of the genre text, trimmed and joined; the status is parseStatus of the status field; the thumbnail is fixed; title and description are copied; the url is unset. |
| Newmanganelos.DetailsWithoutFields | src/en/NewManganelos/src/eu/kanade/tachiyomi/extension/en/newmanganelos/Newmanganelos.kt:155-162 | Without author and status fields the author is "" and the status UNKNOWN. |
| Newmanganelos.TrimEach | src/en/NewManganelos/src/eu/kanade/tachiyomi/extension/en/newmanganelos/Newmanganelos.kt:153-158 | The forEach loop yields every piece trimmed, in order. |
| Newmanganelos.MangaDetailsParse | src/en/NewManganelos/src/eu/kanade/tachiyomi/extension/en/newmanganelos/Newmanganelos.kt:143-170 | The step-by-step parse computes Details, so the fields are as stated there. |
| Newmanganelos.PageListParse | src/en/NewManganelos/src/eu/kanade/tachiyomi/extension/en/newmanganelos/Newmanganelos.kt:202-210 | One page per comma-separated piece, commas + 1 in all. Pages are numbered from 0, and joining the image URLs with "," gives the data back. |
| Manganelo.PopularMangaRequest | src/en/Manganelo/src/eu/kanade/tachiyomi/extension/en/manganelo/Manganelo.kt:48-53 | A GET with type=topview, of "/genre-all" for page 1 and "/genre-all/N" for page N. |
| Manganelo.LatestUpdatesRequest | src/en/Manganelo/src/eu/kanade/tachiyomi/extension/en/manganelo/Manganelo.kt:55-60 | A GET with no query, of "/genre-all" for page 1 and "/genre-all/N" for page N. |
| Manganelo.ListingsAskForTheirPage | src/en/Manganelo/src/eu/kanade/tachiyomi/extension/en/manganelo/Manganelo.kt:48-60 | Both listing paths ask for the page they were built for ("/genre-all" is page 1), and popular is by views. |
| Manganelo.Slug | src/en/Manganelo/src/eu/kanade/tachiyomi/extension/en/manganelo/Manganelo.kt:63 | Same length as the query. Each space becomes "_", each uppercase letter becomes its lowercase, and every other character is unchanged. |
| Manganelo.SlugIdempotent | src/en/Manganelo/src/eu/kanade/tachiyomi/extension/en/manganelo/Manganelo.kt:63 | A slug is its own slug. |
| Manganelo.SearchMangaRequest | src/en/Manganelo/src/eu/kanade/tachiyomi/extension/en/manganelo/Manganelo.kt:62-68 | A GET of "/search/story/" + slug. |
| Manganelo.SearchAsksForItsPage | src/en/Manganelo/src/eu/kanade/tachiyomi/extension/en/manganelo/Manganelo.kt:66 | The only query parameter is "page", and it reads back as N. |
| Manganelo.FetchChapterList | src/en/Manganelo/src/eu/kanade/tachiyomi/extension/en/manganelo/Manganelo.kt:72-82 | Refused with the Licensed message exactly when the status is LICENSED. Otherwise it proceeds with a GET of the manga page, or throws on an unset url. |
| Manganelo.ChapterNumber | src/en/Manganelo/src/eu/kanade/tachiyomi/extension/en/manganelo/Manganelo.kt:99-104 | A number is set exactly when the name has "Chapter <digits>", and it is then the digits' value. |
| Manganelo.ChapterFromElement | src/en/Manganelo/src/eu/kanade/tachiyomi/extension/en/manganelo/Manganelo.kt:93-111 | Succeeds exactly when the date parses. The name is the raw link text, and the number is the guarded one. |
| Manganelo.ChapterListParse | src/en/Manganelo/src/eu/kanade/tachiyomi/extension/en/manganelo/Manganelo.kt:88-91 | The list exists exactly when every row's date parses, with one chapter per row. |
| Manganelo.ChapterListKeepsRows | src/en/Manganelo/src/eu/kanade/tachiyomi/extension/en/manganelo/Manganelo.kt:88-91 | The list exists exactly when every date parses. It then has one chapter per row, in row order, with no de-duplication. |
| Manganelo.MangaDetailsParse | src/en/Manganelo/src/eu/kanade/tachiyomi/extension/en/manganelo/Manganelo.kt:121-145 | The link texts are joined with ", " and the status is normalised. |
| Manganelo.PageListParse | src/en/Manganelo/src/eu/kanade/tachiyomi/extension/en/manganelo/Manganelo.kt:187-194 | Pages are numbered 0..n-1, and the image URLs are the src attributes in order. |
| Model.NumberPages | src/en/Manganelo/src/eu/kanade/tachiyomi/extension/en/manganelo/Manganelo.kt:190-193 | The counter loop of `map { Page(i++, refUrl, it) }`: the image URLs are the inputs in order, page k has index k, and every page points at refUrl. Newmanganelos.kt:205-209 has the same loop. |

## Left out

- Network, reactive and OkHttp plumbing: calls, observables, rate limiting, the cache-control flag and header builders beyond their key/value content. A request is a value.
- Jsoup selection: each document is given as the strings the selectors would extract.
- SimpleDateFormat: a date is given as the parse outcome, a millisecond value or None for a parse failure.
- setUrlWithoutDomain: the link target is kept as given.
- Percent-encoding of URLs and form bodies, and the HashMap iteration order of the form body. The form is a map, and URLs render without encoding.
- HttpUrl.parse: assumed to succeed on the fixed site URLs. A Manganelo query containing "?", "#" or "/" would change the URL's structure, and the model does not capture that.
- ChapterName.ToFloat: Float.parseFloat is modelled only on tokens of digits and dots, the only tokens the regular expressions capture. A value is an exact decimal, not a 32-bit float, so rounding is not modelled.
- Text.Lower: lowercases ASCII letters only. Other scripts' case mappings are not modelled, nor is the default locale's effect on toLowerCase (a Turkish locale maps "I" to a dotless i).
- Text.ParseInt32: only ASCII digits are read. Integer.parseInt also accepts other Unicode decimal digits, and the model rejects them.
- Newmanganelos.SubString: strings are sequences of characters, not UTF-16 code units. The `endPos -= 1` step of getSubString can split a surrogate pair in the source, and the model does not capture that.
- ChapterName.TokenChar: `\d` is ASCII digits only, as in Java's default (non-Unicode) mode.
- The listing-item parsers (popular, latest and search from element), imageRequest, imageUrlParse, the selectors, and the "Not used" overrides: they only select or pass through strings.
- Manganelo: the discarded `split(Regex(""))` call has no effect and is not modelled; the Log call is left out.
- Mangakomi.MakePaginatedRequest: HttpUrl.parse on the URL text before "?" and the cache-control of the page-1 GET are not modelled; the url base is reused as is.
