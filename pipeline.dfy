/**
 * The flow of main once the paper list is fetched: stop when it is empty,
 * filter it by the keywords when some are given, stop when nothing is
 * left, look every remaining paper up, and save the rows under a file name
 * made from the keywords.
 */
module Pipeline {
  import opened Text
  import opened Records
  import opened KeywordFilter
  import opened Results
  import opened MarkdownTable
  import opened OutputFile

  /** How a run ends: nothing fetched, nothing left after filtering, or the
      rows saved to a file (with the file's text when it is Markdown). */
  datatype RunOutcome =
    | NoPapers
    | NoMatches
    | Saved(rows: seq<ResultRow>, path: string, markdown: Option<string>)

  /** What main does with the fetched papers. */
  function MainOutcome(fetched: seq<Paper>, keywords: seq<string>, format: Format,
                       api: SearchRequest -> ApiResponse, timestamp: string): RunOutcome
  {
    if fetched == [] then NoPapers
    else
      var papers := Filtered(fetched, keywords);
      if papers == [] then NoMatches
      else
        var rows := ResultRows(papers, api);
        var path := PathFor(BaseName(keywords, MainFilenameBase(keywords)), format);
        Saved(rows, path, if format == Markdown then Some(MarkdownDocument(timestamp, keywords, rows)) else None)
  }

  method RunMain(fetched: seq<Paper>, keywords: seq<string>, format: Format,
                 api: SearchRequest -> ApiResponse, timestamp: string) returns (outcome: RunOutcome)
    ensures outcome == MainOutcome(fetched, keywords, format, api, timestamp)
  {
    if fetched == [] {
      return NoPapers;
    }
    var papers := fetched;
    if keywords != [] {
      papers := FilterPapersByKeywords(fetched, keywords);
    }
    if papers == [] {
      return NoMatches;
    }
    var rows := AssembleRows(papers, api);
    var filenameBase := if keywords != [] then Join("_", keywords) else "all_papers";
    var path := PathFor(BaseName(keywords, filenameBase), format);
    var markdown := None;
    if format == Markdown {
      var md := ExportMarkdown(timestamp, keywords, rows);
      markdown := Some(md);
    }
    return Saved(rows, path, markdown);
  }

  /** Only a keyword filter can leave nothing to look up. */
  lemma NoMatchesNeedsKeywords(fetched: seq<Paper>, keywords: seq<string>, format: Format,
                               api: SearchRequest -> ApiResponse, timestamp: string)
    requires MainOutcome(fetched, keywords, format, api, timestamp) == NoMatches
    ensures fetched != [] && keywords != []
  {
  }

  /** A saved run has a row for each fetched paper that matches the
      keywords (each fetched paper without keywords), in input order; its
      file is the one save_results would name on its own. */
  lemma SavedRunShape(fetched: seq<Paper>, keywords: seq<string>, format: Format,
                      api: SearchRequest -> ApiResponse, timestamp: string)
    requires MainOutcome(fetched, keywords, format, api, timestamp).Saved?
    ensures var out := MainOutcome(fetched, keywords, format, api, timestamp);
      var papers := Filtered(fetched, keywords);
      && |out.rows| == |papers| > 0
      && (forall i :: 0 <= i < |papers| ==> out.rows[i].cvprTitle == papers[i].title && papers[i] in fetched)
      && (forall i :: 0 <= i < |papers| && keywords != [] ==> MatchesAny(papers[i], keywords))
      && out.path == PathFor(BaseName(keywords, ""), format)
      && Some(out.path) == SavePath(keywords, MainFilenameBase(keywords), FormatName(format))
      && (out.markdown.Some? <==> format == Markdown)
  {
    var papers := Filtered(fetched, keywords);
    RowsFollowPapers(papers, api);
    MainBaseAgrees(keywords);
    SavePathByName(keywords, MainFilenameBase(keywords), FormatName(format), format);
    if keywords != [] {
      forall i | 0 <= i < |papers| ensures papers[i] in fetched && MatchesAny(papers[i], keywords) {
        FilteredMembership(fetched, keywords, papers[i]);
      }
    }
  }
}
