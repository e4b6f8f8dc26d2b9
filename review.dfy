/**
 * The review walker, `fetch_review_text_bs4` (scraper.py:75-111): from a
 * product page, follow the review link and then the chain of "next page"
 * links, at most 15 pages, collecting the review paragraphs.
 */
module Review {
  import opened Wrappers
  import opened Text
  import opened Dom

  /** What the walker reads from any page it fetches, i.e. the answers of
      its three fixed queries:
      - `reviewHref`: the `href` of `li.article-info-meta-link-review a[href]`;
      - `body`: absent when there is no `#review-body`, otherwise the texts
        of its `p` elements that hold a single string, in document order;
      - `nextHref`: the `href` of `a.pages-next:not(.disabled)[href]`. */
  datatype ReviewPage = ReviewPage(reviewHref: Option<string>, body: Option<seq<string>>, nextHref: Option<string>)

  /** `MAX_REVIEW_PAGES` (scraper.py:92). */
  const MaxReviewPages: nat := 15

  /** The two phrases the review status is derived from. */
  const NoReviewPhrase := "İnceleme Metni Yok"
  const NotFoundPhrase := "İnceleme Metni Bulunamadı"

  /** The walker's sentinel results (scraper.py:85, 88, 110). */
  const NoReviewLinkText := NoReviewPhrase + " (Review butonu bulunamadı)"
  function MainPageFailedText(error: string): string {
    NoReviewPhrase + " (Ana sayfa açılamadı: " + error + ")"
  }
  const NoParagraphsText := NotFoundPhrase + " (Sayfalar gezildi ama paragraf çekilemedi)"

  /** The separator between paragraphs (scraper.py:111). */
  const ParagraphSeparator := "\n\n"

  /** What a walk collects: the kept paragraphs in order, and the URLs it
      requested, one per review page. */
  datatype Walked = Walked(paragraphs: seq<string>, visited: seq<string>)

  /** The pagination loop (scraper.py:93-109) from review URL `url` with
      `pagesLeft` iterations left. An absent or empty URL ends the walk; a
      failed request or a page without `#review-body` ends it after that
      page; otherwise the page's non-empty stripped paragraphs are kept
      and the walk goes on to the next link resolved against `baseUrl`. */
  function Walk(fetch: string -> Response<ReviewPage>, join: (string, string) -> string,
                baseUrl: string, url: Option<string>, pagesLeft: nat): Walked
    decreases pagesLeft
  {
    if pagesLeft == 0 || url.None? || url.value == [] then Walked([], [])
    else if !HasBody(fetch, url.value) then Walked([], [url.value])
    else
      var rest := Walk(fetch, join, baseUrl, NextUrl(fetch, join, baseUrl, url.value), pagesLeft - 1);
      Walked(PageParagraphs(fetch, url.value) + rest.paragraphs, [url.value] + rest.visited)
  }

  /** The walk requests at most as many pages as it has left, requests
      none exactly when it has no pages left or no URL, and collects
      paragraphs only when it requested a page. */
  lemma WalkBounds(fetch: string -> Response<ReviewPage>, join: (string, string) -> string,
                   baseUrl: string, url: Option<string>, pagesLeft: nat)
    ensures var w := Walk(fetch, join, baseUrl, url, pagesLeft);
      && |w.visited| <= pagesLeft
      && (w.paragraphs != [] ==> w.visited != [])
      && (w.visited == [] <==> pagesLeft == 0 || url.None? || url.value == [])
  {
    WalkVisitsPages(fetch, join, baseUrl, url, pagesLeft);
    PagesBounds(fetch, join, baseUrl, url, pagesLeft);
    if pagesLeft == 0 || url.None? || url.value == [] {
      WalkStops(fetch, join, baseUrl, url, pagesLeft);
    }
  }


  /** Where the walk starts: the review link of the product page, resolved
      against it; absent when the page failed or has no review link. */
  function FirstReviewUrl(fetch: string -> Response<ReviewPage>, join: (string, string) -> string,
                          baseUrl: string): Option<string>
  {
    match fetch(baseUrl)
    case Failed(_) => None
    case Ok(main) =>
      if main.reviewHref.Some? then Some(join(baseUrl, main.reviewHref.value)) else None
  }

  /** The review pages requested after the product page. */
  function ReviewPagesVisited(fetch: string -> Response<ReviewPage>, join: (string, string) -> string,
                              baseUrl: string): (visited: seq<string>)
    ensures |visited| <= MaxReviewPages
  {
    var start := FirstReviewUrl(fetch, join, baseUrl);
    if start.None? then []
    else
      WalkBounds(fetch, join, baseUrl, start, MaxReviewPages);
      Walk(fetch, join, baseUrl, start, MaxReviewPages).visited
  }

  /** The walker's result (scraper.py:75-111). */
  function ReviewText(fetch: string -> Response<ReviewPage>, join: (string, string) -> string,
                      baseUrl: string): string
  {
    match fetch(baseUrl)
    case Failed(e) => MainPageFailedText(e)
    case Ok(main) =>
      if main.reviewHref.None? then NoReviewLinkText
      else
        var w := Walk(fetch, join, baseUrl, Some(join(baseUrl, main.reviewHref.value)), MaxReviewPages);
        if w.paragraphs == [] then NoParagraphsText else Join(w.paragraphs, ParagraphSeparator)
  }

  /** `fetch_review_text_bs4(session, base_url)`: the loop of the source,
      with the page counter and the paragraph accumulator. The ghost
      `visited` lists the review URLs requested. */
  method FetchReviewText(fetch: string -> Response<ReviewPage>, join: (string, string) -> string,
                         baseUrl: string)
    returns (text: string, ghost visited: seq<string>)
    ensures text == ReviewText(fetch, join, baseUrl)
    ensures visited == ReviewPagesVisited(fetch, join, baseUrl)
    ensures |visited| <= MaxReviewPages
  {
    var main := fetch(baseUrl);
    if main.Failed? {
      return MainPageFailedText(main.error), [];
    }
    if main.page.reviewHref.None? {
      return NoReviewLinkText, [];
    }
    var start := Some(join(baseUrl, main.page.reviewHref.value));
    var allReviewTexts;
    allReviewTexts, visited := WalkPages(fetch, join, baseUrl, start);
    if allReviewTexts == [] {
      text := NoParagraphsText;
    } else {
      text := Join(allReviewTexts, ParagraphSeparator);
    }
  }

  /** The pagination loop of `fetch_review_text_bs4` (scraper.py:92-109),
      from the review link `start`: it collects what `Walk` describes. */
  method WalkPages(fetch: string -> Response<ReviewPage>, join: (string, string) -> string,
                   baseUrl: string, start: Option<string>)
    returns (allReviewTexts: seq<string>, ghost visited: seq<string>)
    ensures allReviewTexts == Walk(fetch, join, baseUrl, start, MaxReviewPages).paragraphs
    ensures visited == Walk(fetch, join, baseUrl, start, MaxReviewPages).visited
  {
    var reviewUrl := start;
    allReviewTexts := [];
    visited := [];
    var pageNum := 1;
    ghost var whole := Walk(fetch, join, baseUrl, start, MaxReviewPages);
    ghost var left: nat := MaxReviewPages;
    while pageNum <= MaxReviewPages
      invariant 1 <= pageNum <= MaxReviewPages + 1 && left == MaxReviewPages + 1 - pageNum
      invariant Resumes(fetch, join, baseUrl, allReviewTexts, visited, reviewUrl, left, whole)
    {
      if reviewUrl.None? || reviewUrl.value == [] {
        ResumeAtEnd(fetch, join, baseUrl, allReviewTexts, visited, reviewUrl, left, whole);
        break;
      }
      var url := reviewUrl.value;
      ghost var before := visited;
      visited := visited + [url];
      var response := fetch(url);
      if response.Failed? || response.page.body.None? {
        ResumeAtLastPage(fetch, join, baseUrl, allReviewTexts, before, url, left, whole);
        break;
      }
      var kept := KeptStrings(response.page.body.value);
      var next := response.page.nextHref;
      reviewUrl := if next.Some? then Some(join(baseUrl, next.value)) else None;
      assert Resumes(fetch, join, baseUrl, allReviewTexts + kept, before + [url], reviewUrl, left - 1, whole) by {
        ResumeAfterPage(fetch, join, baseUrl, allReviewTexts, before, url, left, whole, kept, reviewUrl);
      }
      allReviewTexts := allReviewTexts + kept;
      pageNum := pageNum + 1;
      left := left - 1;
    }
    if pageNum == MaxReviewPages + 1 {
      ResumeAtEnd(fetch, join, baseUrl, allReviewTexts, visited, reviewUrl, left, whole);
    }
  }

  /** The loop state `acc`, `vis` before a walk from `url` with `left`
      pages left, which then completes the whole walk `whole`. */
  ghost predicate Resumes(fetch: string -> Response<ReviewPage>, join: (string, string) -> string, baseUrl: string,
                          acc: seq<string>, vis: seq<string>, url: Option<string>, left: nat, whole: Walked)
  {
    var w := Walk(fetch, join, baseUrl, url, left);
    acc + w.paragraphs == whole.paragraphs && vis + w.visited == whole.visited
  }

  /** With no URL or no pages left, the loop state is the whole walk. */
  lemma ResumeAtEnd(fetch: string -> Response<ReviewPage>, join: (string, string) -> string, baseUrl: string,
                    acc: seq<string>, vis: seq<string>, url: Option<string>, left: nat, whole: Walked)
    requires Resumes(fetch, join, baseUrl, acc, vis, url, left, whole)
    requires left == 0 || url.None? || url.value == []
    ensures acc == whole.paragraphs && vis == whole.visited
  {
    WalkStops(fetch, join, baseUrl, url, left);
  }

  /** A page that failed or has no review body is the last one requested. */
  lemma ResumeAtLastPage(fetch: string -> Response<ReviewPage>, join: (string, string) -> string, baseUrl: string,
                         acc: seq<string>, vis: seq<string>, url: string, left: nat, whole: Walked)
    requires Resumes(fetch, join, baseUrl, acc, vis, Some(url), left, whole)
    requires left > 0 && url != [] && !HasBody(fetch, url)
    ensures acc == whole.paragraphs && vis + [url] == whole.visited
  {
    WalkStep(fetch, join, baseUrl, Some(url), left);
  }

  /** After a page with a review body, its paragraphs are collected and the
      walk resumes at its next link with one page less. */
  lemma ResumeAfterPage(fetch: string -> Response<ReviewPage>, join: (string, string) -> string, baseUrl: string,
                        acc: seq<string>, vis: seq<string>, url: string, left: nat, whole: Walked,
                        kept: seq<string>, next: Option<string>)
    requires Resumes(fetch, join, baseUrl, acc, vis, Some(url), left, whole)
    requires left > 0 && url != [] && HasBody(fetch, url)
    requires kept == PageParagraphs(fetch, url) && next == NextUrl(fetch, join, baseUrl, url)
    ensures Resumes(fetch, join, baseUrl, acc + kept, vis + [url], next, left - 1, whole)
  {
    var rest := Walk(fetch, join, baseUrl, next, left - 1);
    assert Walk(fetch, join, baseUrl, Some(url), left) == Walked(kept + rest.paragraphs, [url] + rest.visited);
    AppendAssoc(acc, kept, rest.paragraphs);
    AppendAssoc(vis, [url], rest.visited);
  }

  /** The paragraphs a page contributes: its kept paragraphs when it was
      fetched and has a review body, none otherwise. */
  function PageParagraphs(fetch: string -> Response<ReviewPage>, url: string): seq<string> {
    match fetch(url)
    case Failed(_) => []
    case Ok(page) => if page.body.Some? then KeptStrings(page.body.value) else []
  }

  /** The paragraphs of a list of pages, page after page. */
  function ParagraphsOf(fetch: string -> Response<ReviewPage>, urls: seq<string>): seq<string> {
    if urls == [] then [] else PageParagraphs(fetch, urls[0]) + ParagraphsOf(fetch, urls[1..])
  }

  /** The next URL a visited page leads to, if it leads anywhere. */
  function NextUrl(fetch: string -> Response<ReviewPage>, join: (string, string) -> string,
                   baseUrl: string, url: string): Option<string>
  {
    match fetch(url)
    case Failed(_) => None
    case Ok(page) =>
      if page.body.Some? && page.nextHref.Some? then Some(join(baseUrl, page.nextHref.value)) else None
  }

  /** The page was fetched and has a review body. */
  predicate HasBody(fetch: string -> Response<ReviewPage>, url: string) {
    fetch(url).Ok? && fetch(url).page.body.Some?
  }

  /** A walk with no pages left or no URL requests nothing. */
  lemma WalkStops(fetch: string -> Response<ReviewPage>, join: (string, string) -> string,
                  baseUrl: string, url: Option<string>, pagesLeft: nat)
    requires pagesLeft == 0 || url.None? || url.value == []
    ensures Walk(fetch, join, baseUrl, url, pagesLeft) == Walked([], [])
  {
  }

  /** One step of a walk that has a URL and pages left. */
  lemma WalkStep(fetch: string -> Response<ReviewPage>, join: (string, string) -> string,
                 baseUrl: string, url: Option<string>, pagesLeft: nat)
    requires pagesLeft > 0 && url.Some? && url.value != []
    ensures var u := url.value;
      var w := Walk(fetch, join, baseUrl, url, pagesLeft);
      var rest := Walk(fetch, join, baseUrl, NextUrl(fetch, join, baseUrl, u), pagesLeft - 1);
      && (HasBody(fetch, u) ==>
            w == Walked(PageParagraphs(fetch, u) + rest.paragraphs, [u] + rest.visited))
      && (!HasBody(fetch, u) ==> w == Walked([], [u]))
  {
  }

  /** A walk collects exactly the paragraphs of the pages it visits, in
      page order and, within a page, in document order. */
  lemma {:induction false} WalkCollectsVisitedPages(fetch: string -> Response<ReviewPage>, join: (string, string) -> string,
                                                    baseUrl: string, url: Option<string>, pagesLeft: nat)
    ensures CollectsVisited(fetch, Walk(fetch, join, baseUrl, url, pagesLeft))
    decreases pagesLeft
  {
    if pagesLeft > 0 && url.Some? && url.value != [] {
      var next := NextUrl(fetch, join, baseUrl, url.value);
      WalkCollectsVisitedPages(fetch, join, baseUrl, next, pagesLeft - 1);
      CollectStep(fetch, join, baseUrl, url, pagesLeft);
    } else {
      CollectNothing(fetch, join, baseUrl, url, pagesLeft);
    }
  }

  /** Only non-empty, stripped paragraphs are ever collected. */
  lemma WalkParagraphsStripped(fetch: string -> Response<ReviewPage>, join: (string, string) -> string,
                               baseUrl: string, url: Option<string>, pagesLeft: nat)
    ensures AllStripped(Walk(fetch, join, baseUrl, url, pagesLeft).paragraphs)
  {
    var w := Walk(fetch, join, baseUrl, url, pagesLeft);
    WalkCollectsVisitedPages(fetch, join, baseUrl, url, pagesLeft);
    ParagraphsOfStripped(fetch, w.visited);
  }

  /** Every paragraph is non-empty and stripped. */
  ghost predicate AllStripped(ps: seq<string>) {
    forall i :: 0 <= i < |ps| ==> ps[i] != [] && IsStripped(ps[i])
  }

  /** The paragraphs of any list of pages are non-empty and stripped. */
  lemma {:induction false} ParagraphsOfStripped(fetch: string -> Response<ReviewPage>, urls: seq<string>)
    ensures AllStripped(ParagraphsOf(fetch, urls))
    decreases |urls|
  {
    if urls != [] {
      var first := PageParagraphs(fetch, urls[0]);
      ParagraphsOfStripped(fetch, urls[1..]);
      assert AllStripped(first) by {
        if HasBody(fetch, urls[0]) {
          KeptStringsStripped(fetch(urls[0]).page.body.value);
        }
      }
      AllStrippedConcat(first, ParagraphsOf(fetch, urls[1..]));
    }
  }

  lemma AllStrippedConcat(a: seq<string>, b: seq<string>)
    requires AllStripped(a) && AllStripped(b)
    ensures AllStripped(a + b)
  {
    forall i | 0 <= i < |a + b| ensures (a + b)[i] != [] && IsStripped((a + b)[i]) {
      if i < |a| {
        assert (a + b)[i] == a[i];
      } else {
        assert (a + b)[i] == b[i - |a|];
      }
    }
  }

  ghost predicate CollectsVisited(fetch: string -> Response<ReviewPage>, w: Walked) {
    w.paragraphs == ParagraphsOf(fetch, w.visited)
  }

  lemma CollectNothing(fetch: string -> Response<ReviewPage>, join: (string, string) -> string,
                        baseUrl: string, url: Option<string>, pagesLeft: nat)
    requires pagesLeft == 0 || url.None? || url.value == []
    ensures CollectsVisited(fetch, Walk(fetch, join, baseUrl, url, pagesLeft))
  {
    WalkStops(fetch, join, baseUrl, url, pagesLeft);
    assert ParagraphsOf(fetch, []) == [];
  }

  lemma CollectStep(fetch: string -> Response<ReviewPage>, join: (string, string) -> string,
                    baseUrl: string, url: Option<string>, pagesLeft: nat)
    requires pagesLeft > 0 && url.Some? && url.value != []
    requires CollectsVisited(fetch, Walk(fetch, join, baseUrl, NextUrl(fetch, join, baseUrl, url.value), pagesLeft - 1))
    ensures CollectsVisited(fetch, Walk(fetch, join, baseUrl, url, pagesLeft))
  {
    var u := url.value;
    WalkStep(fetch, join, baseUrl, url, pagesLeft);
    var rest := Walk(fetch, join, baseUrl, NextUrl(fetch, join, baseUrl, u), pagesLeft - 1);
    var w := Walk(fetch, join, baseUrl, url, pagesLeft);
    if HasBody(fetch, u) {
      ParagraphsOfCons(fetch, u, rest.visited);
    } else {
      assert w == Walked([], [u]);
      assert PageParagraphs(fetch, u) == [];
      ParagraphsOfCons(fetch, u, []);
    }
  }

  lemma ParagraphsOfCons(fetch: string -> Response<ReviewPage>, u: string, urls: seq<string>)
    ensures ParagraphsOf(fetch, [u] + urls) == PageParagraphs(fetch, u) + ParagraphsOf(fetch, urls)
  {
    assert ([u] + urls)[0] == u && ([u] + urls)[1..] == urls;
  }

  /** The pages a walk requests, without what it collects from them: the
      same steps as `Walk`. */
  function Pages(fetch: string -> Response<ReviewPage>, join: (string, string) -> string,
                 baseUrl: string, url: Option<string>, pagesLeft: nat): seq<string>
    decreases pagesLeft
  {
    if pagesLeft == 0 || url.None? || url.value == [] then []
    else if !HasBody(fetch, url.value) then [url.value]
    else [url.value] + Pages(fetch, join, baseUrl, NextUrl(fetch, join, baseUrl, url.value), pagesLeft - 1)
  }

  lemma {:induction false} WalkVisitsPages(fetch: string -> Response<ReviewPage>, join: (string, string) -> string,
                                           baseUrl: string, url: Option<string>, pagesLeft: nat)
    ensures Walk(fetch, join, baseUrl, url, pagesLeft).visited == Pages(fetch, join, baseUrl, url, pagesLeft)
    decreases pagesLeft
  {
    if pagesLeft > 0 && url.Some? && url.value != [] && HasBody(fetch, url.value) {
      WalkVisitsPages(fetch, join, baseUrl, NextUrl(fetch, join, baseUrl, url.value), pagesLeft - 1);
    }
  }

  lemma {:induction false} PagesBounds(fetch: string -> Response<ReviewPage>, join: (string, string) -> string,
                                       baseUrl: string, url: Option<string>, pagesLeft: nat)
    ensures var pages := Pages(fetch, join, baseUrl, url, pagesLeft);
      && |pages| <= pagesLeft
      && (pages == [] <==> pagesLeft == 0 || url.None? || url.value == [])
    decreases pagesLeft
  {
    if pagesLeft > 0 && url.Some? && url.value != [] && HasBody(fetch, url.value) {
      PagesBounds(fetch, join, baseUrl, NextUrl(fetch, join, baseUrl, url.value), pagesLeft - 1);
    }
  }

  /** The requested pages start at the walk's URL, each one is the page the
      previous one's enabled "next" link names, and before the page cap
      only a page that leads nowhere ends them. */
  ghost predicate FollowsNextLinks(fetch: string -> Response<ReviewPage>, join: (string, string) -> string,
                                   baseUrl: string, url: Option<string>, pagesLeft: nat, visited: seq<string>)
  {
    && (visited != [] ==> url.Some? && visited[0] == url.value)
    && (forall i, j :: 0 <= i && j == i + 1 && j < |visited| ==> NextUrl(fetch, join, baseUrl, visited[i]) == Some(visited[j]))
    && (0 < |visited| < pagesLeft ==> LeadsNowhere(fetch, join, baseUrl, visited[|visited| - 1]))
  }

  /** Requesting this page ends a walk: it failed, has no review body, or
      has no usable "next" link. */
  ghost predicate LeadsNowhere(fetch: string -> Response<ReviewPage>, join: (string, string) -> string,
                               baseUrl: string, url: string)
  {
    var next := NextUrl(fetch, join, baseUrl, url);
    next.None? || next.value == []
  }

  /** A walk starts at its URL, goes from each page to the one its enabled
      "next" link names, and stops before the page cap only at a page that
      failed, has no review body, or has no usable "next" link. */
  lemma WalkFollowsNextLinks(fetch: string -> Response<ReviewPage>, join: (string, string) -> string,
                             baseUrl: string, url: Option<string>, pagesLeft: nat)
    ensures FollowsNextLinks(fetch, join, baseUrl, url, pagesLeft, Walk(fetch, join, baseUrl, url, pagesLeft).visited)
  {
    WalkVisitsPages(fetch, join, baseUrl, url, pagesLeft);
    PagesFollowNextLinks(fetch, join, baseUrl, url, pagesLeft);
  }

  lemma {:induction false} PagesFollowNextLinks(fetch: string -> Response<ReviewPage>, join: (string, string) -> string,
                                                baseUrl: string, url: Option<string>, pagesLeft: nat)
    ensures FollowsNextLinks(fetch, join, baseUrl, url, pagesLeft, Pages(fetch, join, baseUrl, url, pagesLeft))
    decreases pagesLeft
  {
    if pagesLeft > 0 && url.Some? && url.value != [] {
      var u := url.value;
      if HasBody(fetch, u) {
        var next := NextUrl(fetch, join, baseUrl, u);
        PagesFollowNextLinks(fetch, join, baseUrl, next, pagesLeft - 1);
        PagesBounds(fetch, join, baseUrl, next, pagesLeft - 1);
        FollowCons(fetch, join, baseUrl, url, next, pagesLeft, Pages(fetch, join, baseUrl, next, pagesLeft - 1),
                   Pages(fetch, join, baseUrl, url, pagesLeft));
      } else {
        assert NextUrl(fetch, join, baseUrl, u).None?;
      }
    }
  }

  /** Prepending a page with a review body to pages that follow the next
      links from that page's own next link gives pages that follow them
      from the page. */
  lemma FollowCons(fetch: string -> Response<ReviewPage>, join: (string, string) -> string,
                   baseUrl: string, url: Option<string>, next: Option<string>, pagesLeft: nat,
                   rest: seq<string>, visited: seq<string>)
    requires url.Some? && pagesLeft > 0 && HasBody(fetch, url.value) && next == NextUrl(fetch, join, baseUrl, url.value)
    requires |rest| <= pagesLeft - 1
    requires rest == [] ==> pagesLeft == 1 || next.None? || next.value == []
    requires FollowsNextLinks(fetch, join, baseUrl, next, pagesLeft - 1, rest)
    requires visited == [url.value] + rest
    ensures FollowsNextLinks(fetch, join, baseUrl, url, pagesLeft, visited)
  {
    var u := url.value;
    forall i, j | 0 <= i && j == i + 1 && j < |visited|
      ensures NextUrl(fetch, join, baseUrl, visited[i]) == Some(visited[j])
    {
      if i > 0 {
        assert visited[i] == rest[i - 1] && visited[j] == rest[j - 1];
      } else {
        assert next.Some? && rest[0] == next.value;
      }
    }
    if 0 < |visited| < pagesLeft {
      if rest != [] {
        assert visited[|visited| - 1] == rest[|rest| - 1];
      } else {
        assert visited == [u];
      }
    }
  }

  /** A review page whose "next" link points back to itself is requested
      again and again, and the page cap alone ends the walk. */
  lemma SelfLinkStopsAtCap(fetch: string -> Response<ReviewPage>, join: (string, string) -> string,
                           baseUrl: string, url: string, pagesLeft: nat)
    requires url != []
    requires fetch(url).Ok? && fetch(url).page.body.Some? && fetch(url).page.nextHref.Some?
    requires join(baseUrl, fetch(url).page.nextHref.value) == url
    ensures Walk(fetch, join, baseUrl, Some(url), pagesLeft).visited == seq(pagesLeft, _ => url)
  {
    WalkVisitsPages(fetch, join, baseUrl, Some(url), pagesLeft);
    SelfLinkPages(fetch, join, baseUrl, url, pagesLeft);
  }

  lemma {:induction false} SelfLinkPages(fetch: string -> Response<ReviewPage>, join: (string, string) -> string,
                                         baseUrl: string, url: string, pagesLeft: nat)
    requires url != []
    requires fetch(url).Ok? && fetch(url).page.body.Some? && fetch(url).page.nextHref.Some?
    requires join(baseUrl, fetch(url).page.nextHref.value) == url
    ensures Pages(fetch, join, baseUrl, Some(url), pagesLeft) == seq(pagesLeft, _ => url)
    decreases pagesLeft
  {
    if pagesLeft > 0 {
      SelfLinkPages(fetch, join, baseUrl, url, pagesLeft - 1);
      assert seq(pagesLeft, _ => url) == [url] + seq(pagesLeft - 1, _ => url);
    }
  }

  /** A review page without `#review-body` is a normal end of the walk:
      when it is the first one, the result says that no paragraph was
      found, and no further page is requested. */
  lemma MissingBodyOnFirstPage(fetch: string -> Response<ReviewPage>, join: (string, string) -> string, baseUrl: string)
    requires fetch(baseUrl).Ok? && fetch(baseUrl).page.reviewHref.Some?
    requires var first := join(baseUrl, fetch(baseUrl).page.reviewHref.value);
      first != [] && fetch(first).Ok? && fetch(first).page.body.None?
    ensures ReviewText(fetch, join, baseUrl) == NoParagraphsText
    ensures |ReviewPagesVisited(fetch, join, baseUrl)| == 1
  {
  }
}
