/** Fetching and fingerprinting one page (`clean_html_content`,
    `extract_content_by_selector`, `get_page_title`, `get_page_hash`).
    The HTML parser, the CSS selector engine and SHA-256 are library code;
    they enter as the fields of `Libraries`, about which nothing is assumed
    (in particular the hash is not assumed injective). */
module Page {
  import opened Wrappers
  import opened Text
  import opened Records

  datatype Libraries = Libraries(
    /** Parse, drop script/style/noscript/iframe elements, `get_text()`. */
    visibleText: string -> string,
    /** `soup.select(selector)`, each match serialised by `str(elem)`, in document order. */
    select: (string, string) -> seq<string>,
    /** The text of the first `<title>`; `None` when there is none or parsing fails. */
    titleText: string -> Option<string>,
    /** `hashlib.sha256(content.encode('utf-8')).hexdigest()`. */
    sha256Hex: string -> Hash,
    /** The message of the `HTTPError` that `raise_for_status` raises, from status code and URL. */
    httpErrorMessage: (int, Url) -> string)

  /** What `requests.get` produced: a response, or a `RequestException` message
      (timeout, DNS failure, refused connection, ...). */
  datatype HttpOutcome =
    | Response(statusCode: int, text: string)
    | RequestFailed(message: string)

  /** `clean_html_content`: the canonical visible text of a document. */
  function CleanHtmlContent(lib: Libraries, html: string): (r: string)
    ensures Canonical(r)
    ensures NonSpace(r) == NonSpace(lib.visibleText(html))
    ensures r == Join(Words(lib.visibleText(html)))
  {
    NormalizeIsJoinedWords(lib.visibleText(html));
    Normalize(lib.visibleText(html))
  }

  function Concat(parts: seq<string>): string {
    if |parts| == 0 then "" else parts[0] + Concat(parts[1..])
  }

  /** `extract_content_by_selector`: the canonical text of the matched
      elements, or of the whole page when nothing matches. */
  function ExtractContentBySelector(lib: Libraries, html: string, selector: string): (r: string)
    ensures Canonical(r)
    ensures |lib.select(html, selector)| == 0 ==> r == CleanHtmlContent(lib, html)
    ensures |lib.select(html, selector)| > 0 ==>
              r == CleanHtmlContent(lib, Concat(lib.select(html, selector)))
  {
    var elements := lib.select(html, selector);
    if |elements| == 0 then CleanHtmlContent(lib, html)
    else CleanHtmlContent(lib, Concat(elements))
  }

  /** `get_page_title`: the stripped title text, or `None`. */
  function GetPageTitle(lib: Libraries, html: string): (r: Option<string>)
    ensures r.None? <==> lib.titleText(html).None?
    ensures r.Some? ==> Trimmed(r.value)
    ensures r.Some? ==> NonSpace(r.value) == NonSpace(lib.titleText(html).value)
    ensures r.Some? ==> StrippedFrom(r.value, lib.titleText(html).value)
  {
    match lib.titleText(html)
    case Some(t) => Some(Strip(t))
    case None => None
  }

  /** The text that is hashed: selector extraction when the selector is
      truthy (present and non-empty), the whole page otherwise. */
  function PageContent(lib: Libraries, html: string, selector: Option<string>): (r: string)
    ensures Canonical(r)
    ensures selector.None? || selector == Some("") ==> r == CleanHtmlContent(lib, html)
    ensures selector.Some? && selector.value != "" ==>
              r == ExtractContentBySelector(lib, html, selector.value)
  {
    if selector.Some? && selector.value != "" then ExtractContentBySelector(lib, html, selector.value)
    else CleanHtmlContent(lib, html)
  }

  /** `raise_for_status` raises for 4xx client and 5xx server errors only. */
  predicate IsHttpError(code: int) {
    400 <= code < 600
  }

  /** `get_page_hash`: classify the fetch and fingerprint the page. */
  function GetPageHash(lib: Libraries, url: Url, selector: Option<string>, http: HttpOutcome): (r: FetchResult)
    ensures r.Fetched? <==> http.Response? && !IsHttpError(http.statusCode)
    ensures r.Fetched? ==> && r.hash == lib.sha256Hex(PageContent(lib, http.text, selector))
                           && r.title == GetPageTitle(lib, http.text)
                           && r.statusCode == http.statusCode
    ensures http.RequestFailed? ==> r == FetchFailed(http.message)
    ensures http.Response? && IsHttpError(http.statusCode) ==>
              r == FetchFailed(lib.httpErrorMessage(http.statusCode, url))
  {
    match http
    case RequestFailed(message) => FetchFailed(message)
    case Response(code, text) =>
      if IsHttpError(code) then FetchFailed(lib.httpErrorMessage(code, url))
      else Fetched(lib.sha256Hex(PageContent(lib, text, selector)), GetPageTitle(lib, text), code)
  }

  /** The fingerprint depends on the page only through its canonical content:
      two successful fetches whose visible text normalises alike (for the
      whole page, or for a selector that matches nothing in either) hash alike,
      whatever their markup and whitespace. */
  lemma SameCanonicalTextSameHash(lib: Libraries, url: Url, selector: Option<string>, a: string, b: string, code: int)
    requires !IsHttpError(code)
    requires Normalize(lib.visibleText(a)) == Normalize(lib.visibleText(b))
    requires selector.None? || selector == Some("")
             || (|lib.select(a, selector.value)| == 0 && |lib.select(b, selector.value)| == 0)
    ensures GetPageHash(lib, url, selector, Response(code, a)).hash
            == GetPageHash(lib, url, selector, Response(code, b)).hash
  {
  }
}
