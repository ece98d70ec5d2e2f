/** The one outbound request each scraper makes, reduced to what it delivers. */
module Fetch {

  /**
   * What `await axios.get(url)` delivers: either a response with its status code and the
   * page it carried (already parsed and reduced to what the selectors match), or a thrown
   * fault (network error, timeout, a non-2xx status that axios rejects, a parse failure).
   */
  datatype Response<+P> = Ok(status: int, page: P) | Fault {

    /** The only outcome the scrapers go on to read: a response with status exactly 200. */
    predicate IsOk200() {
      Ok? && status == 200
    }
  }
}
