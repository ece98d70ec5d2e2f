/** The search request both scrapers send: the term goes in the path, the store zip in the query. */
module Search {
  import opened Nullable
  import opened UriComponent
  import opened JsString

  const Prefix := "https://www.homedepot.com/s/"
  const QueryPrefix := "?NCNI-5&storeSearchZip="

  /** What a search asks for: the product term and the store zip code ("pincode"). */
  datatype SearchQuery = SearchQuery(term: string, pincode: string)

  /** Characters that would end or split the path segment holding the term. */
  predicate IsDelimiter(c: char) {
    c == '/' || c == '?' || c == '&' || c == '#' || c == ' '
  }

  /**
   * The search URL: the fixed prefix, the term through `encodeURIComponent`, the fixed
   * query text, and the pincode exactly as given.
   */
  function SearchUrl(q: SearchQuery): (url: string)
    ensures |Prefix| + |Encode(q.term)| + |QueryPrefix| + |q.pincode| == |url|
    ensures url[..|Prefix|] == Prefix
    ensures url[|url| - |q.pincode|..] == q.pincode
  {
    Prefix + Encode(q.term) + QueryPrefix + q.pincode
  }

  /**
   * The term's path segment holds no `/`, `?`, `&`, `#` or space, whatever the term; the
   * pincode, written raw, has no such guarantee.
   */
  lemma TermSegmentHasNoDelimiter(q: SearchQuery)
    ensures forall k :: |Prefix| <= k < |Prefix| + |Encode(q.term)| ==> !IsDelimiter(SearchUrl(q)[k])
  {
    var enc := Encode(q.term);
    var head := Prefix + enc;
    var url := SearchUrl(q);
    assert url == head + QueryPrefix + q.pincode;
    forall k | |Prefix| <= k < |head| ensures !IsDelimiter(url[k]) {
      assert url[k] == head[k];
      assert head[k] == enc[k - |Prefix|];
    }
  }

  /** Splits the text after the path prefix at its first `?`, which must open the fixed query. */
  function SplitAtQuery(rest: string): Nullable<(string, string)> {
    var i := IndexOf(rest, '?');
    if |rest| - i < |QueryPrefix| || rest[i..i + |QueryPrefix|] != QueryPrefix then Null
    else Value((rest[..i], rest[i + |QueryPrefix|..]))
  }

  /**
   * Reads a search URL back: the path segment up to the first `?` is the encoded term,
   * and what follows the fixed query text is the pincode.
   */
  function ParseSearchUrl(url: string): Nullable<SearchQuery> {
    if |url| < |Prefix| || url[..|Prefix|] != Prefix then Null
    else ParseAfterPrefix(url[|Prefix|..])
  }

  function ParseAfterPrefix(rest: string): Nullable<SearchQuery> {
    match SplitAtQuery(rest)
    case Null => Null
    case Value((path, pincode)) =>
      match Decode(path)
      case Decoded(term) => Value(SearchQuery(term, pincode))
      case UriError => Null
  }

  lemma ParsePrefixed(rest: string)
    ensures ParseSearchUrl(Prefix + rest) == ParseAfterPrefix(rest)
  {
    assert (Prefix + rest)[..|Prefix|] == Prefix;
    assert (Prefix + rest)[|Prefix|..] == rest;
  }

  lemma SplitAtQueryOf(path: string, pincode: string)
    requires forall k :: 0 <= k < |path| ==> path[k] != '?'
    ensures SplitAtQuery(path + QueryPrefix + pincode) == Value((path, pincode))
  {
    var rest := path + QueryPrefix + pincode;
    assert IndexOf(rest, '?') == |path| by {
      assert rest[|path|] == QueryPrefix[0] == '?';
      forall k | 0 <= k < |path| ensures rest[k] != '?' {
        assert rest[k] == path[k];
      }
    }
    assert rest[..|path|] == path;
    assert rest[|path|..|path| + |QueryPrefix|] == QueryPrefix;
    assert rest[|path| + |QueryPrefix|..] == pincode;
  }

  /**
   * No term can move the query boundary: the first `?` of the URL is the one the code
   * writes, so the term and the pincode are both recovered exactly.
   */
  lemma ParseSearchUrlRoundTrip(q: SearchQuery)
    ensures ParseSearchUrl(SearchUrl(q)) == Value(q)
  {
    var rest := Encode(q.term) + QueryPrefix + q.pincode;
    SearchUrlSplit(q);
    ParsePrefixed(rest);
    AfterPrefixRoundTrip(q);
  }

  lemma SearchUrlSplit(q: SearchQuery)
    ensures SearchUrl(q) == Prefix + (Encode(q.term) + QueryPrefix + q.pincode)
  {
    Reassociate(Prefix, Encode(q.term), QueryPrefix, q.pincode);
  }

  lemma Reassociate(a: string, b: string, c: string, d: string)
    ensures a + b + c + d == a + (b + c + d)
  {
  }

  /** What follows the prefix reads back as the query. */
  lemma AfterPrefixRoundTrip(q: SearchQuery)
    ensures ParseAfterPrefix(Encode(q.term) + QueryPrefix + q.pincode) == Value(q)
  {
    var enc := Encode(q.term);
    assert SplitAtQuery(enc + QueryPrefix + q.pincode) == Value((enc, q.pincode)) by {
      SplitAtQueryOf(enc, q.pincode);
    }
    DecodeEncode(q.term);
  }

  /** Different searches never share a URL. */
  lemma SearchUrlInjective(q1: SearchQuery, q2: SearchQuery)
    requires SearchUrl(q1) == SearchUrl(q2)
    ensures q1 == q2
  {
    ParseSearchUrlRoundTrip(q1);
    ParseSearchUrlRoundTrip(q2);
  }
}
