# Home Depot scraper — a Dafny model

This project models the pure logic of the Home Depot scraper scripts. Three TypeScript
files fetch Home Depot search and product pages, pick values out of the HTML with CSS
selectors, and print or forward them.

Once the network and the HTML parser are abstracted away, four pieces of sequential logic
remain. The model covers each of them.

- **The search URL**, built the same way by all three scripts. It is the fixed prefix
  `https://www.homedepot.com/s/`, then the term through `encodeURIComponent`, then
  `?NCNI-5&storeSearchZip=`, then the store zip ("pincode"), which is not encoded.
  - `encodeURIComponent` is modelled in full, following section 19.2.6.5 of ECMA-262:
    UTF-8 bytes (section 3 of RFC 3629) written as upper-case `%XY` triplets.
  - It is given a decoder as its partner, so that the round trip can be proved.
  - The URL is given a parser as its partner, for the same reason.
- **The summary scraper** `scrapeProductDetails(productName, pincode)` and its caller
  `main`, from `working_code.ts`.
  - `chatbot_scrape.ts` holds a line-for-line copy of that function, so one model serves
    both files.
  - Each of the four fields (model number, price, name, brand) is `null` when its selector
    matched nothing. Otherwise it is the first match's text, trimmed.
  - A status other than 200, or a thrown fault, gives four `null`s.
  - `main` prints the success sentence exactly when no field is `null`.
- **The chatbot prompt** that `main` in `chatbot_scrape.ts` builds from the four fields.
- **The link and spec-table scrapers** in `specfication_working_code.ts`.
  - The product link is the host followed by the first result anchor's `href`.
  - Each row of the `Details` table whose header count equals its cell count becomes a
    key/value entry. The key is the trimmed text of its last `th` and the value that of its
    last `td`. Source order is kept.

How the outside world appears in the model:

- A fetch is a parameter `fetch: string -> Response<P>`, so the URL the code builds is the
  URL that gets fetched. A response is `Ok(status, page)` or `Fault`.
  - `Fault` stands for any exception thrown inside the `try`: network errors, axios
    rejecting a non-2xx status, and parser errors. The code catches every exception the
    same way.
- A page is what the selectors yield: for each selector, the text of every matched node in
  document order. For the link scraper this is the `href` of every matched anchor. For the
  details table it is the `th` and `td` texts of every `tr`.
- `console.error` messages become a diagnostic list returned beside the result.
- `String.prototype.trim` is modelled with ECMAScript's full WhiteSpace and
  LineTerminator sets.

Modules: `Nullable`, `Fetch`, `JsString` (trim, `indexOf`), `UriComponent`
(`encodeURIComponent` and its decoder), `Search`, `ProductSummary`, `ChatbotPrompt`,
`ProductLink`, `SpecTable`.

Three behaviours of the code are easy to misread, and the model follows the code:

- The row test at `specfication_working_code.ts:68` compares the header and cell counts
  only. A row with no `th` and no `td` is therefore accepted as `{key: "", value: ""}`
  (`SpecTable.EmptyRowIsAccepted`).
- The host is always put in front of the `href` (`specfication_working_code.ts:27`), even
  when the `href` is already an absolute URL
  (`ProductLink.AbsoluteHrefGetsHostPrefixed`).
- On a fetch, only the status is checked, not the body.

## Model

| member | source | states |
|---|---|---|
| Search.SearchUrl | working_code.ts:6 | The URL starts with the fixed search prefix and ends with the pincode exactly as given. Its length is the sum of the prefix, the encoded term, the query text and the pincode. |
| Search.TermSegmentHasNoDelimiter | working_code.ts:6 | For every term, the encoded term's stretch of the URL holds no `/`, `?`, `&`, `#` or space. |
| Search.ParseSearchUrlRoundTrip | specfication_working_code.ts:10 | Reading the URL back gives the original term and pincode for every query, so no term can move the query boundary. |
| Search.SearchUrlInjective | chatbot_scrape.ts:7 | Two different searches never produce the same URL. |
| UriComponent.Utf8 | working_code.ts:6 | Each character becomes 1 to 4 bytes, each below 256. A single byte is used exactly for code points below 0x80. |
| UriComponent.HexDigit | working_code.ts:6 | Every digit written is `0-9` or upper-case `A-F`. |
| UriComponent.PercentEncode | working_code.ts:6 | Each byte becomes three characters. Position `k` holds `%` exactly when `k % 3 == 0`; every other position holds an upper-case hex digit. |
| UriComponent.Encode | working_code.ts:6 | The output holds only unreserved characters and `%`. It is at least as long as the input and at most 12 times as long. |
| UriComponent.DecodeEncode | working_code.ts:6 | Decoding the encoding of any string gives the string back. |
| UriComponent.EncodeInjective | working_code.ts:6 | Different terms never encode to the same text. |
| UriComponent.EncodeWellEscaped | working_code.ts:6 | Read from the left, the output is unreserved characters and `%XY` triplets with upper-case digits, and nothing else. |
| UriComponent.EncodeConcat | working_code.ts:6 | The encoding of `a + b` is the encoding of `a` followed by that of `b`. |
| UriComponent.EncodeIdentityIffUnreserved | working_code.ts:6 | The encoder leaves a string unchanged exactly when all its characters are unreserved. |
| JsString.Trim | working_code.ts:23-26 | The result is no longer than the input. What it computes is stated by the trim relation in the next two rows. |
| JsString.TrimIsTrimOf | working_code.ts:23 | The result of trim is a slice of the input with no whitespace at either end, and everything outside the slice is whitespace. |
| JsString.TrimCharacterized | working_code.ts:23-26 | Any slice with those properties is the trim of the string, so the trim is unique. |
| JsString.TrimEmptyIffAllWhitespace | working_code.ts:23-26 | Trim gives the empty string exactly when every character is whitespace. |
| JsString.TrimIdempotent | working_code.ts:23-26 | Trimming twice gives the same result as trimming once. |
| ProductSummary.FirstTrimmed | working_code.ts:23 | A field is `null` exactly when there are no matches. Otherwise it is the trim of the first match. |
| ProductSummary.Extract | working_code.ts:18-26 | Each field is computed from its own selector's matches only. |
| ProductSummary.Falsy | working_code.ts:28-42 | `!text` holds exactly for `null` and the empty string; `ProductSummary.NotFoundExactlyWhenBlank` states what that means for a page. |
| ProductSummary.NotFoundExactlyWhenBlank | working_code.ts:23-42 | On a 200 response, a field's "not found" message is logged exactly when its selector matched nothing or its first match is whitespace only. |
| ProductSummary.NotFoundLog | working_code.ts:28-42 | A field's "not found" message is logged exactly when the field is `null` or the empty string, and no other message is logged. |
| ProductSummary.ScrapeProductDetails | working_code.ts:4-49 | A fault or a status other than 200 gives four `null`s and one diagnostic. A 200 logs "not found" for exactly the falsy fields. |
| ProductSummary.FieldIsFirstMatchTrimmed | chatbot_scrape.ts:24-27 | On a 200 response, each field is `null` exactly when its selector matched nothing, and otherwise the trim of the first match. |
| ProductSummary.FieldIndependence | working_code.ts:18-26 | Two pages that agree on one selector's matches give that field the same value, whatever the other selectors matched. |
| ProductSummary.WhitespaceOnlyMatchIsEmptyNotNull | working_code.ts:23-44 | A whitespace-only first match returns `""`, not `null`. The "not found" message is logged, but the value is unchanged. |
| ProductSummary.MainReport | working_code.ts:57-61 | The success sentence is printed exactly when all four fields are non-null. Otherwise the failure line is printed: the fixed text followed by the search term. |
| ProductSummary.EmptyFieldsCountAsPresent | working_code.ts:28-60 | If every field's first match is whitespace only, all four "not found" messages are logged and `main` still prints the success sentence. |
| ProductSummary.FailedFetchReportsFailure | working_code.ts:9-12 | A fault or a status other than 200 always ends in the failure line naming the term. |
| ChatbotPrompt.Interpolate | chatbot_scrape.ts:61-64 | `${value}` writes `null` as the text `null` and a string as itself; `ChatbotPrompt.PromptLines` states the resulting lines. |
| ChatbotPrompt.Prompt | chatbot_scrape.ts:60-79 | The prompt opens with the preamble on a line of its own and closes with the instructions exactly as given; its lines in between are stated by `ChatbotPrompt.PromptLines`. |
| ChatbotPrompt.PromptLines | chatbot_scrape.ts:60-64 | When no field value holds a line break, the prompt's lines are the preamble, then `Brand:`, `Name:`, `Model Number:` and `Price:` in that order, then the instruction lines. Each field line carries its value, with `null` written as `null`. |
| ChatbotPrompt.FailedFetchPromptsNull | chatbot_scrape.ts:55-64 | After a failed search, the prompt is still built, and its four field lines all read `null`. |
| ProductLink.ScrapeProductLink | specfication_working_code.ts:8-33 | There is a link exactly when a 200 response has a first anchor with a non-empty `href`. The link is then the host followed by that `href`. Every other outcome gives `null` and exactly one diagnostic. |
| ProductLink.RelativeHref | specfication_working_code.ts:21-27 | The relative `href` `/p/123` gives `https://www.homedepot.com/p/123`. |
| ProductLink.AbsoluteHrefGetsHostPrefixed | specfication_working_code.ts:27 | An `href` that is already absolute still gets the host put in front of it. |
| ProductLink.OnlyFirstAnchorCounts | specfication_working_code.ts:21-25 | If the first anchor has no `href`, the result is `null` even when later anchors have one. |
| SpecTable.Overwrite | specfication_working_code.ts:77-83 | Assigning a slot once per node leaves the last value. The initial value survives only when there are no nodes. |
| SpecTable.Entry | specfication_working_code.ts:74-86 | An entry's key is the trimmed text of the last header and its value that of the last cell, each `""` when there is none. |
| SpecTable.Assemble | specfication_working_code.ts:60-87 | The table has no more entries than there are rows. |
| SpecTable.Skips | specfication_working_code.ts:68-71 | A skip message with index `i` and counts `h`, `c` is logged exactly when row `i` has `h` headers and `c` cells and `h != c`. |
| SpecTable.AcceptedIndices | specfication_working_code.ts:63-71 | The positions of the accepted rows are all in range, all accepted, strictly increasing, and include every accepted row. |
| SpecTable.AssembleSelectsAcceptedInOrder | specfication_working_code.ts:63-87 | The table is exactly the entries of the accepted rows, in source order: one entry per accepted row. |
| SpecTable.AssembleKeepsAllIffAllAccepted | specfication_working_code.ts:60-87 | The table has as many entries as there are rows exactly when every row has equal header and cell counts. |
| SpecTable.ScrapeDetails | specfication_working_code.ts:35-97 | The table is non-empty only after a 200 response whose page has the details table. In that case the entries are those of the accepted rows, in order, and exactly the rejected rows are logged. |
| SpecTable.NoContainerNoRows | specfication_working_code.ts:50-54 | Without a details table the result is empty, "container not found" is logged, and no fault is raised. |
| SpecTable.EmptyRowIsAccepted | specfication_working_code.ts:68-86 | A row with no header and no cell is accepted as the entry `("", "")`. |
| SpecTable.LastHeaderAndCellWin | specfication_working_code.ts:77-83 | With two headers and two cells, the entry holds the trimmed second header and the trimmed second cell. |
| SpecTable.MismatchedRowSkipped | specfication_working_code.ts:68-71 | A row with one header and no cell is skipped and logged with its index and both counts. A good row before it is kept. |

## Left out

- HTTP (axios): a fetch is a function parameter returning `Ok(status, page)` or `Fault`.
  Axios rejects a non-2xx status by default. Both that rejection and a non-200 status
  lead to the same all-`null` result, and the model covers both.
- HTML parsing and CSS selection (cheerio): the selector strings are configuration. A page
  is given as the texts, or `href`s, the selectors match. Class-set and descendant matching
  are not modelled.
- Lone UTF-16 surrogates in the search term: Dafny strings hold Unicode scalar values,
  so they cannot be represented. In JavaScript they make `encodeURIComponent` throw a
  URIError, which the `try` turns into the all-`null` result.
- The Gemini client, the API key and the model's reply (`chatbot_scrape.ts:57-58`,
  `chatbot_scrape.ts:81-83`): an external service with untyped output.
- The prompt's instruction block (`chatbot_scrape.ts:65-79`): fixed prose, taken as a
  parameter of the prompt.
- Writing to the console: the `console.error` messages of the scrapers are returned as a
  diagnostic list and never printed. The `console.log` output is left out entirely: the
  "Navigating to product page" line (`specfication_working_code.ts:37`) and the loop that
  prints the spec rows (`specfication_working_code.ts:89-92`). `ProductSummary.MainReport`
  returns what `main` in `working_code.ts` would print instead of printing it.
- `main` in `specfication_working_code.ts` (lines 100-111): it only chains the link
  scraper and the table scraper and prints. The model has both scrapers, and their
  composition adds no logic.
- `async`/`await` ordering: every step is sequential, so the model is a composition of
  pure functions.
- JsString.Trim: its own contract states only the length bound. What it computes is
  stated by `JsString.TrimIsTrimOf` and `JsString.TrimCharacterized`.
- UriComponent.Encode: its own contract states only the output alphabet and length
  bounds. The rest is stated by lemmas: it works one character at a time
  (`UriComponent.EncodeConcat`), keeps exactly the unreserved strings unchanged
  (`UriComponent.EncodeIdentityIffUnreserved`), writes only `%XY` triplets with
  upper-case digits besides unreserved characters (`UriComponent.EncodeWellEscaped`), and
  loses nothing (`UriComponent.DecodeEncode`). No lemma states that the bytes inside the
  triplets are the shortest UTF-8 form; the decoder refuses other forms, but that
  uniqueness is not proved.
- SpecTable.Assemble: its own contract states only the length bound. The
  selection-in-order property is `SpecTable.AssembleSelectsAcceptedInOrder`.
- ProductSummary.ScrapeProductDetails: its own contract covers the failure collapse and
  the log. The field values are stated per field by
  `ProductSummary.FieldIsFirstMatchTrimmed`.
