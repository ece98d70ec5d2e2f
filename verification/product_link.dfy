/** `scrapeProductLink` in specfication_working_code.ts: the detail link of the first result. */
module ProductLink {
  import opened Nullable
  import opened Fetch
  import opened Search

  const Host := "https://www.homedepot.com"

  /**
   * A search page as the link scraper sees it: the `href` attribute of every anchor inside
   * a result card, in document order (`Null` for an anchor without one).
   */
  datatype SearchPage = SearchPage(anchorHrefs: seq<Nullable<string>>)

  /** What the link scraper writes to `console.error`. */
  datatype Diagnostic =
    | FetchFailed(status: int)
    | NoProductLinks
    | ScrapeFailed

  datatype LinkScrape = LinkScrape(productLink: Nullable<string>, log: seq<Diagnostic>)

  /** `.first().attr('href')`: undefined when nothing matched or the first anchor has no href. */
  function FirstHref(page: SearchPage): Nullable<string> {
    if |page.anchorHrefs| == 0 then Null else page.anchorHrefs[0]
  }

  /** Whether a 200 response carries a first anchor with a non-empty href. */
  predicate HasLink(response: Response<SearchPage>) {
    response.IsOk200() && FirstHref(response.page).Value? && FirstHref(response.page).v != ""
  }

  /**
   * The link is the host followed by the first anchor's href, with no check of whether the
   * href is already absolute; a missing or empty href, a status other than 200, or a fault
   * gives `null`.
   */
  function ScrapeProductLink(q: SearchQuery, fetch: string -> Response<SearchPage>)
    : (r: LinkScrape)
    ensures r.productLink.Value? <==> HasLink(fetch(SearchUrl(q)))
    ensures r.productLink.Value? ==>
      var link := r.productLink.v;
      && |Host| < |link|
      && link[..|Host|] == Host
      && Value(link[|Host|..]) == fetch(SearchUrl(q)).page.anchorHrefs[0]
    ensures r.productLink == Null <==> |r.log| == 1
  {
    match fetch(SearchUrl(q))
    case Fault => LinkScrape(Null, [ScrapeFailed])
    case Ok(status, page) =>
      if status != 200 then LinkScrape(Null, [FetchFailed(status)])
      else
        match FirstHref(page)
        case Null => LinkScrape(Null, [NoProductLinks])
        case Value(href) =>
          if href == "" then LinkScrape(Null, [NoProductLinks])
          else
            var link := Host + href;
            assert link[..|Host|] == Host && link[|Host|..] == href;
            LinkScrape(Value(link), [])
  }

  /** A relative href becomes a link on the site. */
  lemma RelativeHref(q: SearchQuery, fetch: string -> Response<SearchPage>)
    requires fetch(SearchUrl(q)) == Ok(200, SearchPage([Value("/p/123"), Null]))
    ensures ScrapeProductLink(q, fetch).productLink == Value("https://www.homedepot.com/p/123")
  {
    assert Host + "/p/123" == "https://www.homedepot.com/p/123";
  }

  /** An absolute href is not recognised: the host is put in front of it all the same. */
  lemma AbsoluteHrefGetsHostPrefixed(
    q: SearchQuery, fetch: string -> Response<SearchPage>, path: string)
    requires fetch(SearchUrl(q)) == Ok(200, SearchPage([Value(Host + path)]))
    ensures ScrapeProductLink(q, fetch).productLink == Value(Host + Host + path)
  {
    assert (Host + path)[0] == 'h';
    assert Host + (Host + path) == Host + Host + path;
  }

  /** Only the first anchor is read: a later anchor with a good href does not rescue a bad first. */
  lemma OnlyFirstAnchorCounts(q: SearchQuery, fetch: string -> Response<SearchPage>, rest: seq<Nullable<string>>)
    requires fetch(SearchUrl(q)) == Ok(200, SearchPage([Null] + rest))
    ensures ScrapeProductLink(q, fetch) == LinkScrape(Null, [NoProductLinks])
  {
  }
}
