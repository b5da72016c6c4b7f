/**
 * The candidate scan of search_arxiv: the candidates are visited in the
 * order the API returned them and the first one whose title is similar to
 * the paper's is taken, with its id as the abstract-page URL and a PDF URL
 * derived from it. A failed request, an empty feed and a feed without a
 * similar title all give "no match".
 */
module Matcher {
  import opened Text
  import opened Records
  import opened Similarity
  import opened Query

  /** arxiv_url.replace('abs', 'pdf') + '.pdf'. */
  function PdfUrl(id: string): string {
    ReplaceAll(id, "abs", "pdf") + ".pdf"
  }

  /** The PDF URL is the id, of the same length, with no "abs" left in it,
      followed by ".pdf"; an id without "abs" is kept as it is. */
  lemma PdfUrlShape(id: string)
    ensures |PdfUrl(id)| == |id| + 4
    ensures EndsWith(PdfUrl(id), ".pdf")
    ensures !IsSubstring("abs", PdfUrl(id)[..|id|])
    ensures !IsSubstring("abs", id) ==> PdfUrl(id) == id + ".pdf"
  {
    var replaced := ReplaceAll(id, "abs", "pdf");
    ReplaceKeepsLength(id, "abs", "pdf");
    ReplaceRemovesAll(id, "abs", "pdf");
    assert PdfUrl(id)[..|id|] == replaced;
    if !IsSubstring("abs", id) {
      ReplaceAbsent(id, "abs", "pdf");
    }
  }

  /** The part of the id before its first "abs" is kept in the PDF URL:
      for "http://arxiv.org/abs/2101.00001v1" the scheme and host stay. */
  lemma PdfUrlKeepsPrefix(pre: string, rest: string)
    requires forall i :: 0 <= i < |pre| ==> !OccursAt("abs", pre + rest, i)
    ensures PdfUrl(pre + rest) == pre + ReplaceAll(rest, "abs", "pdf") + ".pdf"
  {
    ReplaceKeepsPrefix(pre, rest, "abs", "pdf");
  }

  /** A PDF URL never reads "Not Found". */
  lemma PdfUrlIsNotPlaceholder(id: string)
    ensures PdfUrl(id) != NotFound
  {
    PdfUrlShape(id);
    var url := PdfUrl(id);
    assert url[|url| - 1] == 'f';
  }

  /** The record built for the candidate that matched. */
  function MatchFor(c: Candidate): MatchInfo {
    MatchInfo(c.id, PdfUrl(c.id), c.title)
  }

  /** Position of the first true verdict, |verdicts| when none is true. */
  function FirstTrue(verdicts: seq<bool>): (k: nat)
    ensures k <= |verdicts|
    ensures forall j :: 0 <= j < k ==> !verdicts[j]
    ensures k < |verdicts| ==> verdicts[k]
  {
    if verdicts == [] || verdicts[0] then 0 else 1 + FirstTrue(verdicts[1..])
  }

  /** Whether each candidate's title is similar to `title`, in feed order. */
  function Verdicts(title: string, entries: seq<Candidate>): (v: seq<bool>)
    ensures |v| == |entries|
    ensures forall j :: 0 <= j < |entries| ==> v[j] == Similar(title, entries[j].title)
  {
    seq(|entries|, j requires 0 <= j < |entries| => Similar(title, entries[j].title))
  }

  /** Position of the first candidate whose title is similar to `title`,
      |entries| when there is none. */
  function FirstSimilarIndex(title: string, entries: seq<Candidate>): (k: nat)
    ensures k <= |entries|
    ensures forall j :: 0 <= j < k ==> !Similar(title, entries[j].title)
    ensures k < |entries| ==> Similar(title, entries[k].title)
  {
    FirstTrue(Verdicts(title, entries))
  }

  /** What search_arxiv returns for a paper titled `title`, given the API's
      response. */
  function ScanResult(title: string, response: ApiResponse): Option<MatchInfo> {
    match response
    case RequestFailed => None
    case Entries(entries) =>
      var k := FirstSimilarIndex(title, entries);
      if k < |entries| then Some(MatchFor(entries[k])) else None
  }

  /** The scan stops at the first similar candidate. */
  lemma ScanStopsAt(title: string, entries: seq<Candidate>, i: nat)
    requires i < |entries|
    requires forall j :: 0 <= j < i ==> !Similar(title, entries[j].title)
    requires Similar(title, entries[i].title)
    ensures ScanResult(title, Entries(entries)) == Some(MatchFor(entries[i]))
  {
    var k := FirstSimilarIndex(title, entries);
    assert k == i by {
      assert !(k < i);
      assert !(k > i);
    }
  }

  /** The scan loop, with its early return on the first similar entry and
      its fall-through when none is similar. */
  method FindPreprint(title: string, response: ApiResponse) returns (m: Option<MatchInfo>)
    ensures m == ScanResult(title, response)
  {
    if response.RequestFailed? {
      return None;
    }
    var entries := response.entries;
    if |entries| == 0 {
      return None;
    }
    var i := 0;
    while i < |entries|
      invariant 0 <= i <= |entries|
      invariant forall j :: 0 <= j < i ==> !Similar(title, entries[j].title)
    {
      if Similar(title, entries[i].title) {
        ScanStopsAt(title, entries, i);
        return Some(MatchFor(entries[i]));
      }
      i := i + 1;
    }
    return None;
  }

  /** search_arxiv for one paper: the request sent through the transport
      `api`, and the scan of its response. */
  method SearchArxiv(paper: Paper, api: SearchRequest -> ApiResponse) returns (request: SearchRequest, m: Option<MatchInfo>)
    ensures request == SearchRequestFor(paper)
    ensures m == ScanResult(paper.title, api(request))
  {
    request := SearchRequestFor(paper);
    var response := api(request);
    m := FindPreprint(paper.title, response);
  }

  /** No match exactly when the request failed or no candidate is similar. */
  lemma NoMatchIff(title: string, response: ApiResponse)
    ensures ScanResult(title, response) == None <==>
      (response.RequestFailed? || forall j :: 0 <= j < |response.entries| ==> !Similar(title, response.entries[j].title))
  {
  }

  /** A match is the first similar candidate, in the API's order, and its
      PDF URL is derived from its id. */
  lemma MatchIsFirstSimilar(title: string, response: ApiResponse, info: MatchInfo)
    requires ScanResult(title, response) == Some(info)
    ensures response.Entries?
    ensures exists k ::
      && 0 <= k < |response.entries|
      && Similar(title, response.entries[k].title)
      && (forall j :: 0 <= j < k ==> !Similar(title, response.entries[j].title))
      && info == MatchInfo(response.entries[k].id, PdfUrl(response.entries[k].id), response.entries[k].title)
  {
    var k := FirstSimilarIndex(title, response.entries);
    assert info == MatchFor(response.entries[k]);
  }

  /** A paper whose title has no words is never matched by the guarded
      scan. */
  lemma NoWordsNoMatch(title: string, response: ApiResponse)
    requires WordSet(title) == {}
    ensures ScanResult(title, response) == None
  {
    if response.Entries? {
      forall j | 0 <= j < |response.entries| ensures !Similar(title, response.entries[j].title) {
        NoWordsNeverSimilar(title, response.entries[j].title);
      }
    }
  }

  // ---------------------------------------------------------------------
  // The scan as written, without the guard

  /** The scan over the entries with are_titles_similar as written: a
      division by zero raises inside the loop, and search_arxiv's handler
      turns it into None. */
  function ScanEntriesAsWritten(title: string, entries: seq<Candidate>): Option<MatchInfo> {
    if entries == [] then None
    else
      match SimilarAsWritten(title, entries[0].title)
      case None => None
      case Some(similar) =>
        if similar then Some(MatchFor(entries[0])) else ScanEntriesAsWritten(title, entries[1..])
  }

  function ScanResultAsWritten(title: string, response: ApiResponse): Option<MatchInfo> {
    match response
    case RequestFailed => None
    case Entries(entries) => ScanEntriesAsWritten(title, entries)
  }

  /** Passing over a candidate that is not similar. */
  lemma ScanSkipsFirst(title: string, entries: seq<Candidate>)
    requires entries != [] && !Similar(title, entries[0].title)
    ensures ScanResult(title, Entries(entries)) == ScanResult(title, Entries(entries[1..]))
  {
    var rest := entries[1..];
    assert Verdicts(title, entries)[1..] == Verdicts(title, rest);
    assert FirstSimilarIndex(title, entries) == 1 + FirstSimilarIndex(title, rest);
    var k := FirstSimilarIndex(title, rest);
    if k < |rest| {
      assert entries[k + 1] == rest[k];
    }
  }

  /** With a worded paper title the test never divides by zero, and the
      scan as written is the guarded scan. */
  lemma {:induction false} ScanEntriesAgree(title: string, entries: seq<Candidate>)
    requires WordSet(title) != {}
    ensures ScanEntriesAsWritten(title, entries) == ScanResult(title, Entries(entries))
  {
    if entries != [] {
      if Similar(title, entries[0].title) {
        ScanStopsAt(title, entries, 0);
      } else {
        ScanSkipsFirst(title, entries);
        ScanEntriesAgree(title, entries[1..]);
      }
    }
  }

  /** With a wordless paper title every verdict is "not similar" or a
      division by zero, and either way the scan as written gives None. */
  lemma {:induction false} ScanEntriesNoWords(title: string, entries: seq<Candidate>)
    requires WordSet(title) == {}
    ensures ScanEntriesAsWritten(title, entries) == None
  {
    if entries != [] {
      NoWordsNeverSimilar(title, entries[0].title);
      ScanEntriesNoWords(title, entries[1..]);
    }
  }

  // ---------------------------------------------------------------------
  // The scan as written over the parsed entries

  /** The loop of search_arxiv over parsed entries. Reading a missing
      `<title>` raises when the loop reaches that entry, and reading a
      missing `<id>` raises for the first similar entry; the handler turns
      either into None, like a division by zero. */
  function ScanFeedAsWritten(title: string, feed: seq<FeedEntry>): Option<MatchInfo> {
    if feed == [] then None
    else
      match feed[0].title
      case None => None
      case Some(entryTitle) =>
        match SimilarAsWritten(title, entryTitle)
        case None => None
        case Some(similar) =>
          if !similar then ScanFeedAsWritten(title, feed[1..])
          else if feed[0].id.None? then None
          else Some(MatchInfo(feed[0].id.value, PdfUrl(feed[0].id.value), entryTitle))
  }

  /** Every entry has both its title and its id. */
  predicate WellFormed(feed: seq<FeedEntry>) {
    forall j :: 0 <= j < |feed| ==> feed[j].title.Some? && feed[j].id.Some?
  }

  /** The (title, id) pairs of a well-formed feed. */
  function CandidatesOf(feed: seq<FeedEntry>): (entries: seq<Candidate>)
    requires WellFormed(feed)
    ensures |entries| == |feed|
    ensures forall j :: 0 <= j < |feed| ==> entries[j] == Candidate(feed[j].title.value, feed[j].id.value)
  {
    seq(|feed|, j requires 0 <= j < |feed| => Candidate(feed[j].title.value, feed[j].id.value))
  }

  /** On a well-formed feed the scan over parsed entries is the scan over
      their (title, id) pairs. */
  lemma {:induction false} ScanFeedWellFormed(title: string, feed: seq<FeedEntry>)
    requires WellFormed(feed)
    ensures ScanFeedAsWritten(title, feed) == ScanEntriesAsWritten(title, CandidatesOf(feed))
  {
    if feed != [] {
      var entries := CandidatesOf(feed);
      assert entries[0] == Candidate(feed[0].title.value, feed[0].id.value);
      assert WellFormed(feed[1..]) by {
        forall j | 0 <= j < |feed| - 1 ensures feed[1..][j].title.Some? && feed[1..][j].id.Some? {
          assert feed[1..][j] == feed[j + 1];
        }
      }
      assert CandidatesOf(feed[1..]) == entries[1..];
      ScanFeedWellFormed(title, feed[1..]);
    }
  }

  /** The entries before position i all have a title and none is similar. */
  predicate PassedOver(title: string, feed: seq<FeedEntry>, i: nat)
    requires i <= |feed|
  {
    forall j :: 0 <= j < i ==> feed[j].title.Some? && SimilarAsWritten(title, feed[j].title.value) == Some(false)
  }

  /** The scan over parsed entries decides at the first entry it does not
      pass over: a missing title, a division by zero or a similar entry
      without id gives None, and a similar entry with an id gives its
      match. The entries after it play no part. */
  lemma {:induction false} ScanFeedDecidesAt(title: string, feed: seq<FeedEntry>, i: nat)
    requires i < |feed| && PassedOver(title, feed, i)
    ensures feed[i].title.None? ==> ScanFeedAsWritten(title, feed) == None
    ensures feed[i].title.Some? && SimilarAsWritten(title, feed[i].title.value).None? ==> ScanFeedAsWritten(title, feed) == None
    ensures feed[i].title.Some? && SimilarAsWritten(title, feed[i].title.value) == Some(true) ==>
      ScanFeedAsWritten(title, feed) ==
        if feed[i].id.None? then None
        else Some(MatchInfo(feed[i].id.value, PdfUrl(feed[i].id.value), feed[i].title.value))
  {
    if i > 0 {
      assert PassedOver(title, feed[1..], i - 1) by {
        forall j | 0 <= j < i - 1
          ensures feed[1..][j].title.Some? && SimilarAsWritten(title, feed[1..][j].title.value) == Some(false)
        {
          assert feed[1..][j] == feed[j + 1];
        }
      }
      ScanFeedDecidesAt(title, feed[1..], i - 1);
      assert feed[1..][i - 1] == feed[i];
    }
  }

  /** Guarding the division by zero does not change what search_arxiv
      returns, for any title and any response. */
  lemma GuardedScanAgrees(title: string, response: ApiResponse)
    ensures ScanResultAsWritten(title, response) == ScanResult(title, response)
  {
    if response.Entries? {
      if WordSet(title) == {} {
        ScanEntriesNoWords(title, response.entries);
        NoWordsNoMatch(title, response);
      } else {
        ScanEntriesAgree(title, response.entries);
      }
    }
  }

  /** On a well-formed feed the source's scan, with its unguarded test,
      gives what the guarded scan gives for the feed's pairs. */
  lemma WellFormedFeedScan(title: string, feed: seq<FeedEntry>)
    requires WellFormed(feed)
    ensures ScanFeedAsWritten(title, feed) == ScanResult(title, Entries(CandidatesOf(feed)))
  {
    ScanFeedWellFormed(title, feed);
    GuardedScanAgrees(title, Entries(CandidatesOf(feed)));
  }
}
