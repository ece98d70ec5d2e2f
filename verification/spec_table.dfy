/**
 * `scrapeProductDetails` in specfication_working_code.ts: the rows of the product page's
 * `Details` table become key/value entries.
 */
module SpecTable {
  import opened Nullable
  import opened Fetch
  import opened JsString

  /** One `tr`: the text of each `th` and of each `td` found in it, in document order. */
  datatype Row = Row(headers: seq<string>, cells: seq<string>)

  /** One entry of the table data. */
  datatype SpecRow = SpecRow(key: string, value: string)

  /**
   * A product page as the scraper sees it: `Null` when no `table[name="Details"]` matched,
   * otherwise the rows found under the matched table, in document order.
   */
  datatype DetailPage = DetailPage(detailsTable: Nullable<seq<Row>>)

  /** What the scraper writes to `console.error`. */
  datatype Diagnostic =
    | FetchFailed(status: int)
    | ContainerNotFound
    | RowSkipped(index: nat, headers: nat, cells: nat)
    | ScrapeFailed

  datatype DetailScrape = DetailScrape(table: seq<SpecRow>, log: seq<Diagnostic>)

  /** The only test a row must pass: as many headers as cells (zero of each included). */
  predicate Accepted(row: Row) {
    |row.headers| == |row.cells|
  }

  /** The trimmed text of every node, in order. */
  function TrimAll(texts: seq<string>): (r: seq<string>)
    ensures |r| == |texts|
  {
    seq(|texts|, k requires 0 <= k < |texts| => Trim(texts[k]))
  }

  /**
   * `x.each((i, n) => slot = $(n).text().trim())`: the slot is assigned each value in turn,
   * starting from `slot`. Last write wins: only the final value survives, and the initial
   * slot only if there is none.
   */
  function Overwrite(slot: string, values: seq<string>): (r: string)
    ensures r == if values == [] then slot else values[|values| - 1]
    decreases |values|
  {
    if values == [] then slot
    else
      var rest := values[1..];
      assert rest != [] ==> rest[|rest| - 1] == values[|values| - 1];
      Overwrite(values[0], rest)
  }

  /**
   * The entry built for an accepted row, from the `key` and `value` slots after both
   * visits: the trimmed text of its last header and of its last cell, each `""` when there
   * is none; earlier headers and cells leave no trace.
   */
  function Entry(row: Row): (e: SpecRow)
    ensures e.key == if row.headers == [] then "" else Trim(row.headers[|row.headers| - 1])
    ensures e.value == if row.cells == [] then "" else Trim(row.cells[|row.cells| - 1])
  {
    SpecRow(Overwrite("", TrimAll(row.headers)), Overwrite("", TrimAll(row.cells)))
  }

  /**
   * `rows.each(...)` with `tableData.push`: the table data after visiting `rows` in order,
   * an accepted row adding its entry and any other row adding nothing.
   */
  function Assemble(rows: seq<Row>): (table: seq<SpecRow>)
    ensures |table| <= |rows|
    decreases |rows|
  {
    if rows == [] then []
    else
      var before := Assemble(rows[..|rows| - 1]);
      var row := rows[|rows| - 1];
      if Accepted(row) then before + [Entry(row)] else before
  }

  /** The skip messages of the visit: one per rejected row, with its index and both counts. */
  function Skips(rows: seq<Row>): (log: seq<Diagnostic>)
    ensures forall d :: d in log ==> d.RowSkipped?
    ensures forall i: nat, h: nat, c: nat :: RowSkipped(i, h, c) in log <==>
      i < |rows| && !Accepted(rows[i]) && h == |rows[i].headers| && c == |rows[i].cells|
    decreases |rows|
  {
    if rows == [] then []
    else
      var n := |rows| - 1;
      var before := Skips(rows[..n]);
      assert forall i :: 0 <= i < n ==> rows[..n][i] == rows[i];
      if Accepted(rows[n]) then before
      else before + [RowSkipped(n, |rows[n].headers|, |rows[n].cells|)]
  }

  /** The positions of the accepted rows, as an independent account of which rows are kept. */
  function AcceptedIndices(rows: seq<Row>): (idx: seq<nat>)
    ensures forall k :: 0 <= k < |idx| ==> idx[k] < |rows| && Accepted(rows[idx[k]])
    ensures forall k, l :: 0 <= k < l < |idx| ==> idx[k] < idx[l]
    ensures forall i :: 0 <= i < |rows| && Accepted(rows[i]) ==> i in idx
    decreases |rows|
  {
    if rows == [] then []
    else
      var n := |rows| - 1;
      var before := AcceptedIndices(rows[..n]);
      assert forall i :: 0 <= i < n ==> rows[..n][i] == rows[i];
      if Accepted(rows[n]) then before + [n] else before
  }

  /**
   * The table data is exactly the entries of the accepted rows, in the order of those rows:
   * an order-preserving selection (a subsequence) of the rows, one entry per accepted row.
   */
  lemma {:induction false} AssembleSelectsAcceptedInOrder(rows: seq<Row>)
    ensures |Assemble(rows)| == |AcceptedIndices(rows)|
    ensures forall k :: 0 <= k < |Assemble(rows)| ==>
      Assemble(rows)[k] == Entry(rows[AcceptedIndices(rows)[k]])
    decreases |rows|
  {
    if rows != [] {
      var n := |rows| - 1;
      var prefix := rows[..n];
      AssembleSelectsAcceptedInOrder(prefix);
      var table, before := Assemble(rows), Assemble(prefix);
      var idx, idxBefore := AcceptedIndices(rows), AcceptedIndices(prefix);
      assert table == before + (if Accepted(rows[n]) then [Entry(rows[n])] else []);
      assert idx == idxBefore + (if Accepted(rows[n]) then [n] else []);
      forall k | 0 <= k < |table| ensures table[k] == Entry(rows[idx[k]]) {
        if k < |before| {
          assert table[k] == before[k] == Entry(prefix[idxBefore[k]]);
          assert prefix[idxBefore[k]] == rows[idxBefore[k]];
        }
      }
    }
  }

  /** The number of accepted rows. */
  function KeptCount(rows: seq<Row>): nat
    decreases |rows|
  {
    if rows == [] then 0
    else KeptCount(rows[..|rows| - 1]) + (if Accepted(rows[|rows| - 1]) then 1 else 0)
  }

  lemma {:induction false} AssembleLength(rows: seq<Row>)
    ensures |Assemble(rows)| == KeptCount(rows)
    decreases |rows|
  {
    if rows != [] {
      AssembleLength(rows[..|rows| - 1]);
    }
  }

  lemma {:induction false} KeptAllIffAllAccepted(rows: seq<Row>)
    ensures KeptCount(rows) == |rows| <==> forall i :: 0 <= i < |rows| ==> Accepted(rows[i])
    decreases |rows|
  {
    if rows != [] {
      var n := |rows| - 1;
      var prefix := rows[..n];
      var m := KeptCount(prefix);
      assert m == n <==> forall i :: 0 <= i < n ==> Accepted(prefix[i]) by {
        KeptAllIffAllAccepted(prefix);
      }
      assert m <= n by { KeptCountBound(prefix); }
      if KeptCount(rows) == |rows| {
        forall i | 0 <= i < |rows| ensures Accepted(rows[i]) {
          if i < n { assert rows[i] == prefix[i]; }
        }
      }
      if forall i :: 0 <= i < |rows| ==> Accepted(rows[i]) {
        forall i | 0 <= i < n ensures Accepted(prefix[i]) {
          assert rows[i] == prefix[i];
        }
      }
    }
  }

  lemma {:induction false} KeptCountBound(rows: seq<Row>)
    ensures KeptCount(rows) <= |rows|
    decreases |rows|
  {
    if rows != [] {
      KeptCountBound(rows[..|rows| - 1]);
    }
  }

  /** A row is dropped exactly when it is not accepted: the output has every row iff all pass. */
  lemma AssembleKeepsAllIffAllAccepted(rows: seq<Row>)
    ensures |Assemble(rows)| == |rows| <==> forall i :: 0 <= i < |rows| ==> Accepted(rows[i])
  {
    AssembleLength(rows);
    KeptAllIffAllAccepted(rows);
  }

  /**
   * `scrapeProductDetails(productLink)`: fetch the link and, if the page has the details
   * table, collect its rows; every failure leaves the table data empty.
   */
  function ScrapeDetails(link: string, fetch: string -> Response<DetailPage>): (r: DetailScrape)
    ensures r.table != [] ==> fetch(link).IsOk200() && fetch(link).page.detailsTable.Value?
    ensures fetch(link).IsOk200() && fetch(link).page.detailsTable.Value? ==>
      var rows := fetch(link).page.detailsTable.v;
      && |r.table| == |AcceptedIndices(rows)|
      && (forall k :: 0 <= k < |r.table| ==> r.table[k] == Entry(rows[AcceptedIndices(rows)[k]]))
      && (forall i: nat, h: nat, c: nat :: RowSkipped(i, h, c) in r.log <==>
            i < |rows| && !Accepted(rows[i]) && h == |rows[i].headers| && c == |rows[i].cells|)
  {
    match fetch(link)
    case Fault => DetailScrape([], [ScrapeFailed])
    case Ok(status, page) =>
      if status != 200 then DetailScrape([], [FetchFailed(status)])
      else
        match page.detailsTable
        case Null => DetailScrape([], [ContainerNotFound])
        case Value(rows) =>
          AssembleSelectsAcceptedInOrder(rows);
          DetailScrape(Assemble(rows), Skips(rows))
  }

  /** Without a details table the result is empty and only "container not found" is logged. */
  lemma NoContainerNoRows(link: string, fetch: string -> Response<DetailPage>)
    requires fetch(link) == Ok(200, DetailPage(Null))
    ensures ScrapeDetails(link, fetch) == DetailScrape([], [ContainerNotFound])
  {
  }

  /** A row with no header and no cell passes the count test and yields an empty entry. */
  lemma EmptyRowIsAccepted(rows: seq<Row>)
    ensures Assemble(rows + [Row([], [])]) == Assemble(rows) + [SpecRow("", "")]
  {
    assert (rows + [Row([], [])])[..|rows|] == rows;
  }

  /** With several headers and cells in a row, the earlier ones are overwritten. */
  lemma LastHeaderAndCellWin(h1: string, h2: string, c1: string, c2: string)
    ensures Assemble([Row([h1, h2], [c1, c2])]) == [SpecRow(Trim(h2), Trim(c2))]
  {
    assert [Row([h1, h2], [c1, c2])][..0] == [];
  }

  /** A row missing its cell is skipped and reported with its index; the good row is kept. */
  lemma MismatchedRowSkipped(
    link: string, fetch: string -> Response<DetailPage>, key: string, value: string, other: string)
    requires fetch(link) == Ok(200, DetailPage(Value([Row([key], [value]), Row([other], [])])))
    ensures ScrapeDetails(link, fetch) ==
      DetailScrape([SpecRow(Trim(key), Trim(value))], [RowSkipped(1, 1, 0)])
  {
    var good := Row([key], [value]);
    var rows := [good, Row([other], [])];
    assert rows[..1] == [good];
    assert [good][..0] == [];
    assert Assemble(rows) == Assemble([good]) == [Entry(good)];
    assert Skips(rows) == Skips([good]) + [RowSkipped(1, 1, 0)];
    assert Skips([good]) == Skips([]) == [];
  }
}
