/**
 * The records that flow through the paper fetcher: a scraped paper, a
 * candidate entry of the preprint search API, the request sent to it, the
 * match the scan picks, and one row of the result table.
 */
module Records {

  datatype Option<T> = None | Some(value: T)

  /** A paper from the conference listing. The abstract is absent for papers
      found by the fallback scan of bold elements. */
  datatype Paper = Paper(title: string, authors: string, abstractText: Option<string>)

  /** One entry of the search API's feed, reduced to the two texts the
      matcher reads (its title and its id, both already stripped). */
  datatype Candidate = Candidate(title: string, id: string)

  /** One entry of the feed as parsed, before its texts are read: the
      `<title>` or the `<id>` element may be missing. */
  datatype FeedEntry = FeedEntry(title: Option<string>, id: Option<string>)

  /** The query parameters of one search request. */
  datatype SearchRequest = SearchRequest(baseUrl: string, searchQuery: string, start: nat, maxResults: nat)

  /** What the transport hands back: either the request raised (network or
      parse error), or the feed's entries in the order returned. */
  datatype ApiResponse = RequestFailed | Entries(entries: seq<Candidate>)

  /** The preprint chosen for a paper. */
  datatype MatchInfo = MatchInfo(arxivUrl: string, pdfUrl: string, arxivTitle: string)

  /** One row of the result table, in the column order of the table. */
  datatype ResultRow = ResultRow(
    cvprTitle: string,
    cvprAuthors: string,
    arxivLink: string,
    pdfLink: string,
    arxivTitle: string)

  /** The keys of a result row, which become the table's columns. */
  datatype Column = CvprTitle | CvprAuthors | ArxivLink | PdfLink | ArxivTitle

  /** The key main stores each value under, and the column's heading. */
  function ColumnName(col: Column): string {
    match col
    case CvprTitle => "CVPR Title"
    case CvprAuthors => "CVPR Authors"
    case ArxivLink => "arXiv Link"
    case PdfLink => "PDF Link"
    case ArxivTitle => "arXiv Title"
  }

  /** row[col]: the value stored under a key. */
  function Field(row: ResultRow, col: Column): string {
    match col
    case CvprTitle => row.cvprTitle
    case CvprAuthors => row.cvprAuthors
    case ArxivLink => row.arxivLink
    case PdfLink => row.pdfLink
    case ArxivTitle => row.arxivTitle
  }

  /** The five keys are distinct, so a row's value is found by its key's
      name alone. */
  lemma ColumnNameInjective(a: Column, b: Column)
    ensures ColumnName(a) == ColumnName(b) <==> a == b
  {
  }

  /** The placeholder written when no preprint was found. */
  const NotFound: string := "Not Found"
}
