/**
 * The per-paper loop of main: each paper of the (filtered) list is looked
 * up on the preprint server and becomes one result row, with "Not Found"
 * in the three preprint columns when the lookup gave nothing.
 */
module Results {
  import opened Text
  import opened Records
  import opened Query
  import opened Matcher

  /** The row main builds for a paper and the outcome of its lookup. */
  function RowFor(paper: Paper, info: Option<MatchInfo>): ResultRow {
    ResultRow(
      paper.title,
      paper.authors,
      if info.Some? then info.value.arxivUrl else NotFound,
      if info.Some? then info.value.pdfUrl else NotFound,
      if info.Some? then info.value.arxivTitle else NotFound)
  }

  /** The lookup main performs for a paper through the transport `api`. */
  function LookupFor(paper: Paper, api: SearchRequest -> ApiResponse): Option<MatchInfo> {
    ScanResult(paper.title, api(SearchRequestFor(paper)))
  }

  /** The rows of the whole run, one per paper in input order. */
  function ResultRows(papers: seq<Paper>, api: SearchRequest -> ApiResponse): seq<ResultRow> {
    seq(|papers|, i requires 0 <= i < |papers| => RowFor(papers[i], LookupFor(papers[i], api)))
  }

  /** The loop of main, appending a row per paper. */
  method AssembleRows(papers: seq<Paper>, api: SearchRequest -> ApiResponse) returns (rows: seq<ResultRow>)
    ensures rows == ResultRows(papers, api)
  {
    rows := [];
    var i := 0;
    while i < |papers|
      invariant 0 <= i <= |papers|
      invariant rows == ResultRows(papers, api)[..i]
    {
      var paper := papers[i];
      var request, info := SearchArxiv(paper, api);
      var row := ResultRow(
        paper.title,
        paper.authors,
        if info.Some? then info.value.arxivUrl else NotFound,
        if info.Some? then info.value.pdfUrl else NotFound,
        if info.Some? then info.value.arxivTitle else NotFound);
      assert row == ResultRows(papers, api)[i];
      PrefixExtend(ResultRows(papers, api), i);
      rows := rows + [row];
      i := i + 1;
    }
  }

  /** One row per paper, in order, carrying the paper's title and authors
      and the outcome of that paper's own lookup. */
  lemma RowsFollowPapers(papers: seq<Paper>, api: SearchRequest -> ApiResponse)
    ensures var rows := ResultRows(papers, api);
      && |rows| == |papers|
      && forall i :: 0 <= i < |papers| ==>
           && rows[i].cvprTitle == papers[i].title
           && rows[i].cvprAuthors == papers[i].authors
           && (LookupFor(papers[i], api).None? <==> rows[i].pdfLink == NotFound)
  {
    forall i | 0 <= i < |papers|
      ensures LookupFor(papers[i], api).None? <==> ResultRows(papers, api)[i].pdfLink == NotFound
    {
      LookupRow(papers[i], papers[i].title, api(SearchRequestFor(papers[i])));
    }
  }

  /** For a lookup result: the three preprint columns all read "Not Found"
      exactly when nothing was found, and a found row links the PDF derived
      from its abstract-page URL. */
  lemma LookupRow(paper: Paper, title: string, response: ApiResponse)
    ensures var info := ScanResult(title, response);
      var row := RowFor(paper, info);
      && (info.None? <==> row.arxivLink == NotFound && row.pdfLink == NotFound && row.arxivTitle == NotFound)
      && (info.None? <==> row.pdfLink == NotFound)
      && (info.Some? ==> row.pdfLink == PdfUrl(row.arxivLink))
  {
    var info := ScanResult(title, response);
    if info.Some? {
      MatchIsFirstSimilar(title, response, info.value);
      PdfUrlIsNotPlaceholder(info.value.arxivUrl);
    }
  }
}
