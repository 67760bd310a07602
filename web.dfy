/** The web as the downloader sees it: responses to GET requests, and the few
    elements it looks up in each parsed HTML page. HTTP and HTML parsing are
    abstracted away; a page is the record of what the lookups find. */
module Web {
  import opened Wrappers

  /** A URL or an href, as the text the server or the page gives. */
  type Url = string

  /** `requests.codes.ok`. */
  const StatusOk := 200

  /** One `li.chapter-item` of a table-of-contents page. */
  datatype Chapter = Chapter(
    title: string,   // the text of its `p.title`
    noAccess: bool,  // it holds a `p.no-access-message`
    pdfHref: Url)    // the href of its `a.pdf-link`

  /** What the lookups find on one parsed page; None where the element is absent. */
  datatype Page = Page(
    documentType: Option<string>,  // id of `div#content div.document`
    aboutHref: Option<Url>,        // href of `a#about-link`
    coverHref: Option<Url>,        // href of the link in `div.productGraphic` (about page)
    frontMatterHref: Option<Url>,  // href of the link in `.front-matter-item`
    chapters: seq<Chapter>,        // every `li.chapter-item`, in document order
    backMatterHref: Option<Url>,   // href of the link in `.back-matter-item`
    nextHref: Option<Url>)         // href of `link[rel=next]`

  /** A response to a GET: its status, the final URL after redirects, its
      Content-Type header if present, and its body parsed as a page. */
  datatype Response = Response(status: int, url: Url, contentType: Option<string>, page: Page)

  /** The web: what a GET of each URL answers. */
  type Get = Url -> Response

  /** `urllib.parse.urljoin(base, ref)`, resolution of a reference against a base URL. */
  type Join = (Url, Url) -> Url

  /** `Response.raise_for_status` raises for client and server errors. */
  predicate RaisesForStatus(status: int) {
    400 <= status < 600
  }
}
