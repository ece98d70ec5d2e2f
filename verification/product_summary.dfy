/**
 * The search-page scraper `scrapeProductDetails` and its caller `main` in working_code.ts.
 * chatbot_scrape.ts holds a copy of the same function, line for line; both are this model.
 */
module ProductSummary {
  import opened Nullable
  import opened Fetch
  import opened JsString
  import opened Search

  /** The four fields the scraper looks for. */
  datatype Field = ModelNumber | Price | Name | Brand

  /**
   * A search page as the scraper sees it: for each field, the text content of every node
   * its selector matches, in document order.
   */
  datatype SummaryPage = SummaryPage(
    modelNumber: seq<string>, price: seq<string>, name: seq<string>, brand: seq<string>)
  {
    function Matches(f: Field): seq<string> {
      match f
      case ModelNumber => modelNumber
      case Price => price
      case Name => name
      case Brand => brand
    }
  }

  /** The record the scraper returns: each field a string or `null`. */
  datatype Summary = Summary(
    modelNumber: Nullable<string>, price: Nullable<string>,
    name: Nullable<string>, brand: Nullable<string>)
  {
    function Get(f: Field): Nullable<string> {
      match f
      case ModelNumber => modelNumber
      case Price => price
      case Name => name
      case Brand => brand
    }

    /** The test `main` applies: every field `!== null` (an empty string passes). */
    predicate AllPresent() {
      modelNumber != Null && price != Null && name != Null && brand != Null
    }
  }

  const AllNull := Summary(Null, Null, Null, Null)

  /** What the scraper writes to `console.error`. */
  datatype Diagnostic =
    | FetchFailed(status: int)
    | ScrapeFailed
    | NotFound(field: Field)

  datatype SummaryScrape = SummaryScrape(summary: Summary, log: seq<Diagnostic>)

  /** One field: `null` when nothing matched, else the trimmed text of the first match. */
  function FirstTrimmed(matches: seq<string>): (r: Nullable<string>)
    ensures r == Null <==> matches == []
    ensures r.Value? ==> IsTrimOf(matches[0], r.v)
  {
    if |matches| > 0 then TrimIsTrimOf(matches[0]); Value(Trim(matches[0])) else Null
  }

  /** Each field is read from its own matches only. */
  function Extract(page: SummaryPage): (s: Summary)
    ensures forall f: Field :: s.Get(f) == FirstTrimmed(page.Matches(f))
  {
    Summary(FirstTrimmed(page.modelNumber), FirstTrimmed(page.price),
            FirstTrimmed(page.name), FirstTrimmed(page.brand))
  }

  /** `if (!text)`: JavaScript counts both `null` and the empty string as false. */
  predicate Falsy(v: Nullable<string>) {
    v == Null || v == Value("")
  }

  /** The "not found" messages, one per falsy field, in the order the code tests them. */
  function NotFoundLog(s: Summary): (log: seq<Diagnostic>)
    ensures forall f: Field :: NotFound(f) in log <==> Falsy(s.Get(f))
    ensures forall d :: d in log ==> d.NotFound?
  {
    (if Falsy(s.modelNumber) then [NotFound(ModelNumber)] else [])
    + (if Falsy(s.price) then [NotFound(Price)] else [])
    + (if Falsy(s.name) then [NotFound(Name)] else [])
    + (if Falsy(s.brand) then [NotFound(Brand)] else [])
  }

  /**
   * `scrapeProductDetails(productName, pincode)`: fetch the search URL and read the four
   * fields; a status other than 200 or any thrown fault gives four `null`s.
   */
  function ScrapeProductDetails(q: SearchQuery, fetch: string -> Response<SummaryPage>)
    : (r: SummaryScrape)
    ensures !fetch(SearchUrl(q)).IsOk200() ==> r.summary == AllNull && |r.log| == 1
    ensures fetch(SearchUrl(q)).IsOk200() ==>
      forall f: Field :: NotFound(f) in r.log <==> Falsy(r.summary.Get(f))
  {
    match fetch(SearchUrl(q))
    case Fault => SummaryScrape(AllNull, [ScrapeFailed])
    case Ok(status, page) =>
      if status != 200 then SummaryScrape(AllNull, [FetchFailed(status)])
      else
        var s := Extract(page);
        SummaryScrape(s, NotFoundLog(s))
  }

  /**
   * On a 200 response each field is `null` exactly when its selector matched nothing, and
   * otherwise is the first match with its surrounding whitespace removed.
   */
  lemma FieldIsFirstMatchTrimmed(q: SearchQuery, fetch: string -> Response<SummaryPage>, f: Field)
    requires fetch(SearchUrl(q)).IsOk200()
    ensures var v := ScrapeProductDetails(q, fetch).summary.Get(f);
      var m := fetch(SearchUrl(q)).page.Matches(f);
      && (v == Null <==> m == [])
      && (v.Value? ==> IsTrimOf(m[0], v.v))
  {
  }

  /** Two pages that agree on one field's matches give that field the same value. */
  lemma FieldIndependence(
    q: SearchQuery, fetch1: string -> Response<SummaryPage>,
    fetch2: string -> Response<SummaryPage>, f: Field)
    requires fetch1(SearchUrl(q)).IsOk200() && fetch2(SearchUrl(q)).IsOk200()
    requires fetch1(SearchUrl(q)).page.Matches(f) == fetch2(SearchUrl(q)).page.Matches(f)
    ensures ScrapeProductDetails(q, fetch1).summary.Get(f)
         == ScrapeProductDetails(q, fetch2).summary.Get(f)
  {
  }

  /**
   * A first match of whitespace only yields the empty string, not `null`: the "not found"
   * message is logged, and the value is returned unchanged.
   */
  lemma WhitespaceOnlyMatchIsEmptyNotNull(
    q: SearchQuery, fetch: string -> Response<SummaryPage>, f: Field)
    requires fetch(SearchUrl(q)).IsOk200()
    requires var m := fetch(SearchUrl(q)).page.Matches(f); m != [] && AllWhitespace(m[0])
    ensures ScrapeProductDetails(q, fetch).summary.Get(f) == Value("")
    ensures NotFound(f) in ScrapeProductDetails(q, fetch).log
  {
    TrimEmptyIffAllWhitespace(fetch(SearchUrl(q)).page.Matches(f)[0]);
  }

  /**
   * On a 200 response a field's "not found" message is logged exactly when its selector
   * matched nothing or its first match is whitespace only.
   */
  lemma NotFoundExactlyWhenBlank(q: SearchQuery, fetch: string -> Response<SummaryPage>, f: Field)
    requires fetch(SearchUrl(q)).IsOk200()
    ensures var m := fetch(SearchUrl(q)).page.Matches(f);
      NotFound(f) in ScrapeProductDetails(q, fetch).log <==> m == [] || AllWhitespace(m[0])
  {
    var m := fetch(SearchUrl(q)).page.Matches(f);
    if m != [] {
      TrimEmptyIffAllWhitespace(m[0]);
    }
  }

  /** What `main` prints. */
  datatype Report = Success(sentence: string) | Failure(message: string)

  const FailurePrefix := "Failed to retrieve brand, name, model number, and/or price for "

  /**
   * `main`'s choice: the sentence naming all four values when none is `null` (empty strings
   * included), otherwise the failure line naming the search term.
   */
  function MainReport(q: SearchQuery, s: Summary): (r: Report)
    ensures r.Success? <==> forall f: Field :: s.Get(f) != Null
    ensures r.Failure? ==> |FailurePrefix| <= |r.message|
                           && r.message[..|FailurePrefix|] == FailurePrefix
                           && r.message[|FailurePrefix|..] == q.term
  {
    if s.AllPresent() then
      Success("The brand of the product is " + s.brand.v + ", the name is " + s.name.v
        + ". The model number is " + s.modelNumber.v + " and the price is " + s.price.v + ".")
    else
      assert s.Get(ModelNumber) == Null || s.Get(Price) == Null
          || s.Get(Name) == Null || s.Get(Brand) == Null;
      Failure(FailurePrefix + q.term)
  }

  /**
   * Whitespace-only matches for all four fields still produce the success sentence: four
   * "not found" messages are logged, yet `main` sees four non-null values.
   */
  lemma EmptyFieldsCountAsPresent(q: SearchQuery, fetch: string -> Response<SummaryPage>)
    requires fetch(SearchUrl(q)).IsOk200()
    requires forall f: Field :: var m := fetch(SearchUrl(q)).page.Matches(f);
      m != [] && AllWhitespace(m[0])
    ensures MainReport(q, ScrapeProductDetails(q, fetch).summary).Success?
    ensures forall f: Field :: NotFound(f) in ScrapeProductDetails(q, fetch).log
  {
    forall f: Field ensures ScrapeProductDetails(q, fetch).summary.Get(f) == Value("")
      && NotFound(f) in ScrapeProductDetails(q, fetch).log
    {
      WhitespaceOnlyMatchIsEmptyNotNull(q, fetch, f);
    }
  }

  /** A failed or non-200 fetch always ends in the failure line. */
  lemma FailedFetchReportsFailure(q: SearchQuery, fetch: string -> Response<SummaryPage>)
    requires !fetch(SearchUrl(q)).IsOk200()
    ensures MainReport(q, ScrapeProductDetails(q, fetch).summary) == Failure(FailurePrefix + q.term)
  {
  }
}
