/** The walk over a book's table of contents (`__book_extract`): the ordered
    list of content URLs — cover, front matter, then for each page its
    accessible chapters and its back matter — following `rel=next` links. */
module BookExtract {
  import opened Wrappers
  import opened Web

  /** The cover link, found through the about page; it is used exactly as the
      about page gives it, without resolution against any base. */
  function CoverUrls(get: Get, root: Page): seq<Url> {
    match root.aboutHref
    case None => []
    case Some(about) =>
      var aboutResponse := get(about);
      if aboutResponse.status == StatusOk && aboutResponse.page.coverHref.Some? then
        [aboutResponse.page.coverHref.value]
      else
        []
  }

  /** The front-matter link, resolved against the root page's final URL. */
  function FrontMatterUrls(join: Join, rootUrl: Url, root: Page): seq<Url> {
    match root.frontMatterHref
    case None => []
    case Some(href) => [join(rootUrl, href)]
  }

  /** One URL per chapter without a no-access message, resolved against the page URL. */
  function ChapterUrls(join: Join, pageUrl: Url, chapters: seq<Chapter>): seq<Url> {
    if chapters == [] then []
    else
      (if chapters[0].noAccess then [] else [join(pageUrl, chapters[0].pdfHref)])
      + ChapterUrls(join, pageUrl, chapters[1..])
  }

  /** What one table-of-contents page contributes: its chapters, then its back matter. */
  function PageItems(join: Join, pageUrl: Url, page: Page): seq<Url> {
    ChapterUrls(join, pageUrl, page.chapters)
    + match page.backMatterHref
      case None => []
      case Some(href) => [join(pageUrl, href)]
  }

  /** The page the walk moves on to: the final URL and page of the response to
      the resolved `rel=next` link, when there is one and it answers OK. */
  function NextPage(get: Get, join: Join, pageUrl: Url, page: Page): Option<(Url, Page)> {
    match page.nextHref
    case None => None
    case Some(href) =>
      var response := get(join(pageUrl, href));
      if response.status == StatusOk then Some((response.url, response.page)) else None
  }

  /** The walk from this page stops after at most `n` moves to a next page.
      The source has no guard against a cycle of next links; the model
      assumes the chain of pages is finite. */
  ghost predicate EndsWithin(get: Get, join: Join, pageUrl: Url, page: Page, n: nat)
    decreases n
  {
    pageUrl == "" ||
    match NextPage(get, join, pageUrl, page)
    case None => true
    case Some(next) => n > 0 && EndsWithin(get, join, next.0, next.1, n - 1)
  }

  /** The URLs the walk collects from this page on. A page with an empty URL
      ends the walk, as the loop guard tests the URL's truth. */
  ghost function Walk(get: Get, join: Join, pageUrl: Url, page: Page, n: nat): seq<Url>
    requires EndsWithin(get, join, pageUrl, page, n)
    decreases n
  {
    if pageUrl == "" then []
    else
      PageItems(join, pageUrl, page)
      + match NextPage(get, join, pageUrl, page)
        case None => []
        case Some(next) => Walk(get, join, next.0, next.1, n - 1)
  }

  /** Everything `__book_extract` collects from a root page, in order. */
  ghost function BookContent(get: Get, join: Join, rootUrl: Url, root: Page, n: nat): seq<Url>
    requires EndsWithin(get, join, rootUrl, root, n)
  {
    CoverUrls(get, root) + FrontMatterUrls(join, rootUrl, root) + Walk(get, join, rootUrl, root, n)
  }

  lemma {:induction false} ChapterUrlsAppend(join: Join, pageUrl: Url, a: seq<Chapter>, b: seq<Chapter>)
    ensures ChapterUrls(join, pageUrl, a + b) == ChapterUrls(join, pageUrl, a) + ChapterUrls(join, pageUrl, b)
  {
    if a == [] {
      assert a + b == b;
    } else {
      assert (a + b)[1..] == a[1..] + b;
      ChapterUrlsAppend(join, pageUrl, a[1..], b);
    }
  }

  /** A chapter with a no-access message contributes nothing, and the chapters
      around it contribute as they would without it. */
  lemma DeniedChapterSkipped(join: Join, pageUrl: Url, before: seq<Chapter>, denied: Chapter, after: seq<Chapter>)
    requires denied.noAccess
    ensures ChapterUrls(join, pageUrl, before + [denied] + after) == ChapterUrls(join, pageUrl, before + after)
  {
    ChapterUrlsAppend(join, pageUrl, before + [denied], after);
    ChapterUrlsAppend(join, pageUrl, before, [denied]);
    ChapterUrlsAppend(join, pageUrl, before, after);
  }

  /** A chapter without the message contributes exactly its resolved PDF link,
      between the URLs of the chapters before and after it. */
  lemma AccessibleChapterKept(join: Join, pageUrl: Url, before: seq<Chapter>, chapter: Chapter, after: seq<Chapter>)
    requires !chapter.noAccess
    ensures ChapterUrls(join, pageUrl, before + [chapter] + after)
         == ChapterUrls(join, pageUrl, before) + [join(pageUrl, chapter.pdfHref)] + ChapterUrls(join, pageUrl, after)
  {
    ChapterUrlsAppend(join, pageUrl, before + [chapter], after);
    ChapterUrlsAppend(join, pageUrl, before, [chapter]);
  }

  /** A URL is collected from a page's chapters exactly when some chapter
      without a no-access message resolves to it. */
  lemma {:induction false} ChapterUrlsMembers(join: Join, pageUrl: Url, chapters: seq<Chapter>, u: Url)
    ensures u in ChapterUrls(join, pageUrl, chapters)
        <==> exists i :: 0 <= i < |chapters| && !chapters[i].noAccess && u == join(pageUrl, chapters[i].pdfHref)
  {
    if chapters != [] {
      ChapterUrlsMembers(join, pageUrl, chapters[1..], u);
      if u in ChapterUrls(join, pageUrl, chapters[1..]) {
        var i :| 0 <= i < |chapters[1..]| && !chapters[1..][i].noAccess && u == join(pageUrl, chapters[1..][i].pdfHref);
        assert chapters[i + 1] == chapters[1..][i];
      }
      if exists i :: 0 <= i < |chapters| && !chapters[i].noAccess && u == join(pageUrl, chapters[i].pdfHref) {
        var i :| 0 <= i < |chapters| && !chapters[i].noAccess && u == join(pageUrl, chapters[i].pdfHref);
        if i > 0 {
          assert chapters[1..][i - 1] == chapters[i];
        }
      }
    }
  }

  /** One round of the page loop: the walk takes this page's items and ends
      when there is no next link or the next fetch is not OK; otherwise it goes
      on from the response's final URL (after redirects) and its page. */
  lemma WalkStep(get: Get, join: Join, pageUrl: Url, page: Page, k: nat)
    requires EndsWithin(get, join, pageUrl, page, k)
    requires pageUrl != ""
    ensures page.nextHref.None? ==> Walk(get, join, pageUrl, page, k) == PageItems(join, pageUrl, page)
    ensures page.nextHref.Some? ==>
      var response := get(join(pageUrl, page.nextHref.value));
      if response.status == StatusOk then
        k > 0 && EndsWithin(get, join, response.url, response.page, k - 1) &&
        Walk(get, join, pageUrl, page, k)
          == PageItems(join, pageUrl, page) + Walk(get, join, response.url, response.page, k - 1)
      else
        Walk(get, join, pageUrl, page, k) == PageItems(join, pageUrl, page)
  {
  }

  /** A finite sequence of visited pages, each with its URL, as the loop sees them:
      every page has a non-empty URL, each page's next link leads to the one
      after it, and the last page has no next link, or its next fetch fails,
      or that fetch ends at an empty URL. */
  ghost predicate IsPageChain(get: Get, join: Join, chain: seq<(Url, Page)>) {
    && |chain| > 0
    && (forall i :: 0 <= i < |chain| ==> chain[i].0 != "")
    && (forall i :: 0 <= i < |chain| - 1 ==> NextPage(get, join, chain[i].0, chain[i].1) == Some(chain[i + 1]))
    && var last := chain[|chain| - 1];
       match NextPage(get, join, last.0, last.1)
       case None => true
       case Some(next) => next.0 == ""
  }

  /** The URLs contributed by the pages of a chain, page after page. */
  ghost function ChainItems(join: Join, chain: seq<(Url, Page)>): seq<Url> {
    if chain == [] then [] else PageItems(join, chain[0].0, chain[0].1) + ChainItems(join, chain[1..])
  }

  /** A finite chain of pages bounds the walk by its number of moves. */
  lemma {:induction false} ChainEnds(get: Get, join: Join, chain: seq<(Url, Page)>)
    requires IsPageChain(get, join, chain)
    ensures EndsWithin(get, join, chain[0].0, chain[0].1, |chain|)
  {
    if |chain| > 1 {
      assert NextPage(get, join, chain[0].0, chain[0].1) == Some(chain[1]) && chain[1..][0] == chain[1];
      assert IsPageChain(get, join, chain[1..]) by {
        forall i | 0 <= i < |chain[1..]| - 1
          ensures NextPage(get, join, chain[1..][i].0, chain[1..][i].1) == Some(chain[1..][i + 1])
        {
          assert chain[1..][i] == chain[i + 1] && chain[1..][i + 1] == chain[i + 2];
        }
      }
      ChainEnds(get, join, chain[1..]);
    }
  }

  /** Termination and what is kept: the walk collects, page after page, the
      items of every page of the chain, stopping after the page whose next link
      is missing or whose next fetch fails. The bound does not matter. */
  lemma {:induction false} WalkFollowsChain(get: Get, join: Join, chain: seq<(Url, Page)>, n: nat)
    requires IsPageChain(get, join, chain)
    requires EndsWithin(get, join, chain[0].0, chain[0].1, n)
    ensures Walk(get, join, chain[0].0, chain[0].1, n) == ChainItems(join, chain)
  {
    var first := chain[0];
    if |chain| == 1 {
      match NextPage(get, join, first.0, first.1)
      case None =>
      case Some(next) =>
        assert next.0 == "";
        assert Walk(get, join, next.0, next.1, n - 1) == [];
    } else {
      assert NextPage(get, join, first.0, first.1) == Some(chain[1]);
      assert IsPageChain(get, join, chain[1..]) by {
        forall i | 0 <= i < |chain[1..]| - 1
          ensures NextPage(get, join, chain[1..][i].0, chain[1..][i].1) == Some(chain[1..][i + 1])
        {
          assert chain[1..][i] == chain[i + 1] && chain[1..][i + 1] == chain[i + 2];
        }
      }
      WalkFollowsChain(get, join, chain[1..], n - 1);
    }
  }

  /** The pages the walk visits from this page on, each with its URL. */
  ghost function VisitedPages(get: Get, join: Join, pageUrl: Url, page: Page, n: nat): seq<(Url, Page)>
    requires EndsWithin(get, join, pageUrl, page, n)
    decreases n
  {
    if pageUrl == "" then []
    else
      [(pageUrl, page)]
      + match NextPage(get, join, pageUrl, page)
        case None => []
        case Some(next) => VisitedPages(get, join, next.0, next.1, n - 1)
  }

  /** The converse of `ChainEnds`: a walk that ends within a bound from a page
      with a URL visits a finite chain of pages starting at that page, and
      collects exactly that chain's items. */
  lemma {:induction false} WalkIsChain(get: Get, join: Join, pageUrl: Url, page: Page, n: nat)
    requires EndsWithin(get, join, pageUrl, page, n)
    requires pageUrl != ""
    ensures exists chain :: IsPageChain(get, join, chain) && chain[0] == (pageUrl, page)
                           && Walk(get, join, pageUrl, page, n) == ChainItems(join, chain)
  {
    var chain := VisitedPages(get, join, pageUrl, page, n);
    VisitedPagesChain(get, join, pageUrl, page, n);
    WalkFollowsChain(get, join, chain, n);
  }

  lemma {:induction false} VisitedPagesChain(get: Get, join: Join, pageUrl: Url, page: Page, n: nat)
    requires EndsWithin(get, join, pageUrl, page, n)
    requires pageUrl != ""
    ensures var chain := VisitedPages(get, join, pageUrl, page, n);
            IsPageChain(get, join, chain) && chain[0] == (pageUrl, page)
    decreases n
  {
    var chain := VisitedPages(get, join, pageUrl, page, n);
    match NextPage(get, join, pageUrl, page)
    case None =>
      assert chain == [(pageUrl, page)];
    case Some(next) =>
      var rest := VisitedPages(get, join, next.0, next.1, n - 1);
      assert chain == [(pageUrl, page)] + rest;
      if next.0 == "" {
        assert chain == [(pageUrl, page)];
      } else {
        VisitedPagesChain(get, join, next.0, next.1, n - 1);
        forall i | 0 <= i < |chain| - 1
          ensures NextPage(get, join, chain[i].0, chain[i].1) == Some(chain[i + 1])
        {
          if i > 0 {
            assert chain[i] == rest[i - 1] && chain[i + 1] == rest[i];
          }
        }
        assert chain[|chain| - 1] == rest[|rest| - 1];
        forall i | 0 <= i < |chain| ensures chain[i].0 != "" {
          if i > 0 {
            assert chain[i] == rest[i - 1];
          }
        }
      }
  }

  /** A single page with front matter and three chapters, the middle one
      denied, and no about link, back matter or next link: the book's content
      is the front matter and the two open chapters, in that order. */
  lemma FrontMatterAndOpenChapters(get: Get, join: Join, rootUrl: Url, root: Page, n: nat)
    requires rootUrl != "" && root.aboutHref.None? && root.frontMatterHref.Some?
    requires |root.chapters| == 3 && !root.chapters[0].noAccess && root.chapters[1].noAccess && !root.chapters[2].noAccess
    requires root.backMatterHref.None? && root.nextHref.None?
    ensures EndsWithin(get, join, rootUrl, root, n)
    ensures BookContent(get, join, rootUrl, root, n)
         == [join(rootUrl, root.frontMatterHref.value),
             join(rootUrl, root.chapters[0].pdfHref),
             join(rootUrl, root.chapters[2].pdfHref)]
  {
    var cs := root.chapters;
    assert cs == [cs[0]] + [cs[1]] + [cs[2]];
    DeniedChapterSkipped(join, rootUrl, [cs[0]], cs[1], [cs[2]]);
    ChapterUrlsAppend(join, rootUrl, [cs[0]], [cs[2]]);
  }

  /** Two pages: the cover is taken as the about page gives it, the front
      matter and the first page's chapter are resolved against the root's
      URL, and the second page's chapter and back matter against the final
      URL of the response to the next link, not against the link itself. */
  lemma CoverThenTwoPages(get: Get, join: Join, rootUrl: Url, root: Page, n: nat)
    requires rootUrl != "" && root.aboutHref.Some?
    requires get(root.aboutHref.value).status == StatusOk && get(root.aboutHref.value).page.coverHref.Some?
    requires root.frontMatterHref.Some? && |root.chapters| == 1 && !root.chapters[0].noAccess
    requires root.backMatterHref.None? && root.nextHref.Some?
    requires var second := get(join(rootUrl, root.nextHref.value));
      && second.status == StatusOk && second.url != ""
      && |second.page.chapters| == 1 && !second.page.chapters[0].noAccess
      && second.page.backMatterHref.Some? && second.page.nextHref.None?
    requires n > 0
    ensures EndsWithin(get, join, rootUrl, root, n)
    ensures var second := get(join(rootUrl, root.nextHref.value));
      BookContent(get, join, rootUrl, root, n)
        == [get(root.aboutHref.value).page.coverHref.value,
            join(rootUrl, root.frontMatterHref.value),
            join(rootUrl, root.chapters[0].pdfHref),
            join(second.url, second.page.chapters[0].pdfHref),
            join(second.url, second.page.backMatterHref.value)]
  {
    var second := get(join(rootUrl, root.nextHref.value));
    assert EndsWithin(get, join, second.url, second.page, n - 1);
    WalkStep(get, join, rootUrl, root, n);
    WalkStep(get, join, second.url, second.page, n - 1);
    assert ChapterUrls(join, rootUrl, root.chapters[1..]) == [];
    assert ChapterUrls(join, rootUrl, root.chapters) == [join(rootUrl, root.chapters[0].pdfHref)];
    assert ChapterUrls(join, second.url, second.page.chapters[1..]) == [];
    assert ChapterUrls(join, second.url, second.page.chapters) == [join(second.url, second.page.chapters[0].pdfHref)];
    assert PageItems(join, rootUrl, root) == [join(rootUrl, root.chapters[0].pdfHref)];
    assert PageItems(join, second.url, second.page)
        == [join(second.url, second.page.chapters[0].pdfHref), join(second.url, second.page.backMatterHref.value)];
  }

  /** The body of the page loop before it looks for the next link: the
      chapters in document order, skipping those with a no-access message,
      then the back matter. */
  method CollectPage(join: Join, pageUrl: Url, page: Page) returns (items: seq<Url>)
    ensures items == PageItems(join, pageUrl, page)
  {
    items := [];
    var chapters := page.chapters;
    for i := 0 to |chapters|
      invariant items == ChapterUrls(join, pageUrl, chapters[..i])
    {
      var chapter := chapters[i];
      if !chapter.noAccess {
        items := items + [join(pageUrl, chapter.pdfHref)];
      }
      assert chapters[..i + 1] == chapters[..i] + [chapter];
      ChapterUrlsAppend(join, pageUrl, chapters[..i], [chapter]);
    }
    assert chapters[..|chapters|] == chapters;

    match page.backMatterHref {
      case Some(href) => items := items + [join(pageUrl, href)];
      case None =>
    }
  }

  /** The page loop of `__book_extract`: starting from a page and its URL,
      collects each page's items and moves on through `rel=next` links until a
      page has none, a next fetch is not OK, or a page's URL is empty. */
  method WalkPages(get: Get, join: Join, startUrl: Url, start: Page, ghost n: nat)
    returns (urls: seq<Url>)
    requires EndsWithin(get, join, startUrl, start, n)
    ensures urls == Walk(get, join, startUrl, start, n)
  {
    ghost var total := Walk(get, join, startUrl, start, n);
    urls := [];
    var pageUrl, page := startUrl, start;
    var walking := true;
    ghost var k := n;
    while walking && pageUrl != ""
      invariant walking ==> EndsWithin(get, join, pageUrl, page, k)
      invariant walking ==> urls + Walk(get, join, pageUrl, page, k) == total
      invariant !walking ==> urls == total
      decreases walking, k
    {
      WalkStep(get, join, pageUrl, page, k);

      var items := CollectPage(join, pageUrl, page);
      urls := urls + items;

      if page.nextHref.Some? {
        var nextResponse := get(join(pageUrl, page.nextHref.value));
        if nextResponse.status == StatusOk {
          pageUrl, page := nextResponse.url, nextResponse.page;
          k := k - 1;
          assert urls + Walk(get, join, pageUrl, page, k) == total;
        } else {
          walking := false;
          assert urls == total;
        }
      } else {
        walking := false;
        assert urls == total;
      }
    }
  }

  /** `__book_extract`: the cover (through the about page, if it answers OK),
      the front matter, then everything the page walk collects from the root page. */
  method ExtractBook(get: Get, join: Join, rootUrl: Url, root: Page, ghost n: nat)
    returns (contentUrls: seq<Url>)
    requires EndsWithin(get, join, rootUrl, root, n)
    ensures contentUrls == BookContent(get, join, rootUrl, root, n)
  {
    contentUrls := [];

    if root.aboutHref.Some? {
      var aboutResponse := get(root.aboutHref.value);
      if aboutResponse.status == StatusOk && aboutResponse.page.coverHref.Some? {
        contentUrls := contentUrls + [aboutResponse.page.coverHref.value];
      }
    }

    if root.frontMatterHref.Some? {
      contentUrls := contentUrls + [join(rootUrl, root.frontMatterHref.value)];
    }

    var pageUrls := WalkPages(get, join, rootUrl, root, n);
    contentUrls := contentUrls + pageUrls;
  }
}
