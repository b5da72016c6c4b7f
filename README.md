# CVPR paper fetcher — decision logic in Dafny

This project models the core of `paper_fetcher.py` in Dafny. That core:

- filters scraped conference papers by keywords
- builds a search query for each remaining paper
- picks the first candidate preprint whose title is similar to the paper's title
- derives the PDF URL from the candidate's id
- assembles one result row per paper
- writes the rows as a Markdown table, or names the file for another output format

The modules follow the program's parts:

| file | module | models |
|---|---|---|
| `records.dfy` | `Records` | the records: paper, candidate entry, search request, API response, match, result row |
| `text.dfy` | `Text` | the string primitives the program relies on: `lower`, `str.split()`, `sep.join`, `str.replace`, `s.split(c)` and decimal rendering |
| `keyword_filter.dfy` | `KeywordFilter` | `filter_papers_by_keywords` |
| `query.dfy` | `Query` | the query built by `search_arxiv` |
| `similarity.dfy` | `Similarity` | `are_titles_similar` |
| `matcher.dfy` | `Matcher` | the candidate scan and PDF URL of `search_arxiv` |
| `results.dfy` | `Results` | the per-paper loop of `main` |
| `markdown_cell.dfy` | `MarkdownCell` | the link wrapping, escaping and truncation of one table cell |
| `markdown_table.dfy` | `MarkdownTable` | the Markdown document with its table |
| `output_file.dfy` | `OutputFile` | the base name, extension and path of the output file |
| `pipeline.dfy` | `Pipeline` | the flow of `main` once the papers are fetched |

Where the source loops and appends, the model is a method with a loop, proved equal to a specification function. This covers:

- `FilterPapersByKeywords`
- `FindPreprint`, the scan with its early return
- `AssembleRows`
- `FormatRowCells`
- `ExportMarkdown`

`RunMain`, the flow of `main`, is a method without a loop of its own. It calls these methods and takes the source's early returns.

Each method is proved equal to its specification function. The properties are then proved as lemmas about those functions.

Modelling decisions:

- **Character classes are ASCII.**
  - `\w` is `[A-Za-z0-9_]`.
  - Whitespace, for `\s` and for `str.split()`, is what `str.isspace` accepts among ASCII characters.
  - `lower()` maps `A`–`Z` to `a`–`z` and leaves every other character alone.
- **Absent values are empty values.**
  - An absent keyword list (`None`) and an empty one behave the same everywhere (`if not keywords`), so keywords are a `seq<string>` and `[]` stands for both.
  - Likewise, `filename_base` is a string and `""` stands for `None`.
- **The search API is a function parameter.**
  - It has type `api: SearchRequest -> ApiResponse`.
  - A response is either `RequestFailed` or the feed's entries as `(title, id)` pairs, in order and already stripped.
  - `RequestFailed` stands for the exceptions of the request and of the feed's parsing (paper_fetcher.py:134-138). The source catches them and returns `None`.
  - The exceptions raised inside the loop over the entries are modelled separately, in `Matcher.ScanFeedAsWritten`: a missing `<title>` or `<id>`, and the division by zero.
- **The similarity ratio is kept in integers.**
  - The test is `2 * |common| > max(|w1|, |w2|)`, and `Similarity.SimilarIsRatioAboveHalf` proves it agrees with `|common| / max > 0.5` over the reals.
  - When both word sets are empty the source divides by zero. The `ZeroDivisionError` is raised inside the `try` of `search_arxiv` and caught there, so that search yields `None`.
  - The model treats the empty case as "not similar" (`Similarity.Similar`). The unguarded test is modelled as well: `Similarity.SimilarAsWritten` gives `None` exactly where the source divides by zero.
  - `Matcher.ScanResultAsWritten` is the scan with the unguarded test, where a division by zero ends the search with `None` as the exception handler does. `Matcher.GuardedScanAgrees` proves it returns the same as the guarded scan for every title and every response.
  - The code itself has no guard and relies on the exception being caught, which gives the same result.
- **A cell separator is a pipe not directly preceded by a backslash.** This is how GitHub-flavoured Markdown reads an escaped pipe `\|` inside a table cell.
- **The table's columns are a datatype.** The five keys of a result row are the constructors of `Column`, and `ColumnName` gives each its heading. The names are distinct, so looking a value up by its column is the same as looking it up by the column's name.
- **Cells are specified character by character.** `FormatCell` escapes each character on its own. The exporter's loop keeps the source's chain of five replacements, and `FormatCellChain` proves the chain gives the same text.
- **The search time of the Markdown preamble is a parameter** (`timestamp`).

## Model

| member | source | states |
|---|---|---|
| KeywordFilter.SearchText | paper_fetcher.py:87-91 | The text searched for a paper: the lower-cased title, a space, the lower-cased authors. Its properties are stated by `MatchingIgnoresCase`. |
| KeywordFilter.MatchesAny | paper_fetcher.py:94 | A paper matches when some lower-cased keyword occurs in its search text. Characterised by `SelectIsOrderedMatches` and `FilteredMembership`. |
| KeywordFilter.Filtered | paper_fetcher.py:82-95 | The filter's result: the input itself without keywords, the matching papers in order otherwise. Its properties are stated by `SelectIsOrderedMatches` and `FilteredMembership`. |
| KeywordFilter.FilterPapersByKeywords | paper_fetcher.py:78-98 | The filter loop returns the filter's specification. With no keywords it returns the input unchanged, and the output is never longer than the input. |
| KeywordFilter.SelectIsOrderedMatches | paper_fetcher.py:85-95 | The kept papers are `papers[idx[j]]` for strictly increasing positions `idx`, so order is preserved. A position is among them iff its paper matches some lower-cased keyword in `lower(title) + " " + lower(authors)`. |
| KeywordFilter.FilteredMembership | paper_fetcher.py:82-95 | With keywords, a paper is in the output iff it is in the input and some keyword matches it. |
| KeywordFilter.MatchingIgnoresCase | paper_fetcher.py:87-94 | Lower-casing the keywords, the title or the authors beforehand does not change whether a paper matches. |
| KeywordFilter.MatchWordInTitle | paper_fetcher.py:87-94 | A keyword matches a paper whose title contains a word that lower-cases to the same text as the keyword. |
| KeywordFilter.CapitalisedKeywordMatches | paper_fetcher.py:87-94 | The keyword "Diffusion" selects the paper titled "Learning diffusion priors", where the word is spelled in lower case, so a case-sensitive test would miss it. |
| Query.CleanTitle | paper_fetcher.py:110 | The cleaned title has the same length. Every character is a word character or whitespace. Such characters are kept, and every other character becomes a space. |
| Query.SearchTerms | paper_fetcher.py:112 | The first eight words of the cleaned title joined by single spaces. Its properties are stated by `SearchTermsAreLeadingWords` and `SearchTermsCharset`. |
| Query.SearchTermsAreLeadingWords | paper_fetcher.py:110-112 | Splitting the search terms gives back exactly the first `min(8, n)` words of the cleaned title. There are at most 8 of them, and each is made only of word characters. |
| Query.SearchTermsCharset | paper_fetcher.py:110-112 | The search terms contain only word characters and spaces. |
| Query.FirstAuthorSurname | paper_fetcher.py:115-120 | The surname is empty iff the authors string has no ASCII letter. Otherwise it is the leftmost, longest run of ASCII letters, starting at the first letter. |
| Query.TitleClause | paper_fetcher.py:123 | The title clause `ti:"<terms>"`. Its quotes are placed by `QueryQuotesOnlyThePhrase`. |
| Query.BuildQuery | paper_fetcher.py:115-125 | The query is `ti:"<terms>"` followed by ` AND au:<surname>` iff the authors string contains an ASCII letter, and `ti:"<terms>"` alone otherwise. |
| Query.QueryQuotesOnlyThePhrase | paper_fetcher.py:123-125 | The only double quotes in the query are the two around the search terms, at positions 3 and 4 + \|terms\|. |
| Query.SearchRequestFor | paper_fetcher.py:107-131 | The request goes to the API URL, carries the built query, starts at result 0 and asks for 5 results. |
| Query.SurnameExample | paper_fetcher.py:118-120 | For "J. Smith, A. Lee" the letter run found first is the initial "J". |
| Similarity.Normalise | paper_fetcher.py:165-166 | The lower-cased title with every non-word, non-space character deleted. |
| Similarity.SetOf | paper_fetcher.py:169-170 | Python's `set(...)` of a word list. Its membership is stated by `SetOfMembers`. |
| Similarity.WordSet | paper_fetcher.py:169-170 | The set of the words of the normalised title. Its membership is stated by `SetOfMembers`. |
| Similarity.Similar | paper_fetcher.py:160-176 | The guarded test 2 × \|common\| > max(\|w1\|, \|w2\|), with a positive maximum. Its meaning is stated by `SimilarIsRatioAboveHalf` and its properties by the lemmas below. |
| Similarity.SimilarAsWritten | paper_fetcher.py:160-176 | The test as written: `None` exactly when both word sets are empty, where the source divides by zero, and otherwise the guarded test's verdict. |
| Similarity.DeleteNonWord | paper_fetcher.py:165-166 | Deleting the non-word, non-space characters leaves only word characters and whitespace, and never lengthens the text. Its content is stated by `DeleteNonWordKeepsRest` and `DeleteNonWordConcat`. |
| Similarity.DeleteNonWordConcat | paper_fetcher.py:165-166 | The deletion distributes over concatenation: it decides character by character. |
| Similarity.DeleteNonWordKeepsRest | paper_fetcher.py:165-166 | Every word or whitespace character occurs in the result as often as in the input. |
| Similarity.DeleteNonWordKeepsClean | paper_fetcher.py:165-166 | Text already made of word characters and whitespace is left unchanged. |
| Similarity.SetOfMembers | paper_fetcher.py:169-170 | The word set built from the split words holds exactly the words of the split. |
| Similarity.RatioAboveHalf | paper_fetcher.py:174-176 | For a positive denominator, `c / m > 0.5` iff `2c > m`. |
| Similarity.SimilarIsRatioAboveHalf | paper_fetcher.py:160-176 | The integer test holds iff the denominator is positive and the source's ratio exceeds 0.5. |
| Similarity.SimilarIsSymmetric | paper_fetcher.py:160-176 | Similarity does not depend on the order of the two titles. |
| Similarity.SimilarIsReflexive | paper_fetcher.py:160-176 | A title with at least one word is similar to itself. |
| Similarity.NoWordsNeverSimilar | paper_fetcher.py:172-174 | A title with no words is similar to nothing, on either side. The source divides by zero only when the other title has no words either; otherwise its ratio is 0 and the verdict is the same. |
| Similarity.SimilarSharesAWord | paper_fetcher.py:172-176 | Similar titles share at least one normalised word. |
| Matcher.PdfUrl | paper_fetcher.py:146 | Every "abs" in the id replaced by "pdf", then ".pdf" appended. Its properties are stated by `PdfUrlShape` and `PdfUrlIsNotPlaceholder`. |
| Matcher.PdfUrlShape | paper_fetcher.py:146 | The PDF URL is 4 characters longer than the id and ends with ".pdf". No "abs" is left in the part before ".pdf". An id without "abs" is kept as it is. |
| Matcher.PdfUrlKeepsPrefix | paper_fetcher.py:146 | The part of the id before its first "abs", such as the scheme and host, is kept at the head of the PDF URL. |
| Matcher.PdfUrlIsNotPlaceholder | paper_fetcher.py:146 | A derived PDF URL is never the "Not Found" placeholder. |
| Matcher.FirstSimilarIndex | paper_fetcher.py:141-151 | The result is the position of the first candidate whose title is similar, or the number of candidates when there is none. No earlier candidate is similar. |
| Matcher.MatchFor | paper_fetcher.py:145-151 | The match built from a candidate: its id, the PDF URL derived from the id, its title. |
| Matcher.ScanResult | paper_fetcher.py:133-158 | What `search_arxiv` returns for a response under the guarded test: `None` for a failed request, otherwise the match built from the first similar candidate, or `None`. Characterised by `NoMatchIff` and `MatchIsFirstSimilar`. |
| Matcher.ScanStopsAt | paper_fetcher.py:141-151 | When candidate `i` is the first similar one, the scan returns the match built from it. |
| Matcher.FindPreprint | paper_fetcher.py:133-158 | The scan loop, with its early return and fall-through, returns what the scan specification gives: `None` for a failed request, an empty feed, or a feed without a similar title. |
| Matcher.SearchArxiv | paper_fetcher.py:100-158 | The request sent is `SearchRequestFor(paper)`, and the result is the scan of the response the transport returns for it. |
| Matcher.NoMatchIff | paper_fetcher.py:140-158 | There is no match iff the request failed or no candidate's title is similar. |
| Matcher.MatchIsFirstSimilar | paper_fetcher.py:141-151 | A match comes from the first similar candidate in feed order. Its URL is that candidate's id, its PDF URL is derived from the id, and its title is the candidate's title. |
| Matcher.NoWordsNoMatch | paper_fetcher.py:140-158 | Under the guarded test, a paper whose title has no words never gets a match. |
| Matcher.ScanEntriesAsWritten | paper_fetcher.py:141-158 | The loop over the entries with the unguarded test: the first similar entry is returned, and a division by zero ends the search with `None` through the exception handler. Its agreement with the guarded scan is stated by `GuardedScanAgrees`. |
| Matcher.ScanResultAsWritten | paper_fetcher.py:133-158 | `search_arxiv`'s result with the unguarded test: `None` for a failed request, otherwise the loop over the entries as written. |
| Matcher.ScanSkipsFirst | paper_fetcher.py:141-144 | When the first candidate is not similar, the scan's result is that of the remaining candidates. |
| Matcher.ScanEntriesAgree | paper_fetcher.py:141-151 | For a paper title with at least one word the test never divides by zero, and the scan as written equals the guarded scan. |
| Matcher.ScanEntriesNoWords | paper_fetcher.py:141-158 | For a paper title without words, each entry is either not similar or raises the division by zero, and either way the scan as written gives `None`. |
| Matcher.ScanFeedAsWritten | paper_fetcher.py:140-158 | The loop over the parsed entries as the source runs it. A missing title, a division by zero, or a missing id on the first similar entry gives `None` through the handler; otherwise the first similar entry's match, or `None`. Its behaviour is stated by `ScanFeedDecidesAt` and `ScanFeedWellFormed`. |
| Matcher.CandidatesOf | paper_fetcher.py:142-145 | The `(title, id)` pairs of a well-formed feed, one per entry, in order. |
| Matcher.ScanFeedWellFormed | paper_fetcher.py:140-158 | On a feed whose entries all have a title and an id, the scan over parsed entries equals the scan over their pairs. |
| Matcher.ScanFeedDecidesAt | paper_fetcher.py:140-158 | The entries before position i have titles and are not similar. Then entry i decides: a missing title or a division by zero gives `None`, and a similar entry gives its match, or `None` when its id is missing. Later entries play no part. |
| Matcher.WellFormedFeedScan | paper_fetcher.py:140-158 | On a well-formed feed, the source's loop with its unguarded test gives the same result as the guarded scan of the feed's pairs. |
| Matcher.GuardedScanAgrees | paper_fetcher.py:133-176 | For every title and every response, guarding the division by zero does not change what `search_arxiv` returns. |
| Results.RowFor | paper_fetcher.py:399-405 | The row for a paper and its lookup: title and authors, then the three preprint fields, or "Not Found" in each when the lookup gave nothing. Its properties are stated by `LookupRow`. |
| Results.ResultRows | paper_fetcher.py:394-407 | One row per paper, in input order, each from that paper's own lookup. Its properties are stated by `RowsFollowPapers`. |
| Results.LookupFor | paper_fetcher.py:397 | The lookup of one paper: the scan of the response the transport gives for the paper's request. |
| Results.AssembleRows | paper_fetcher.py:389-407 | The loop of `main` returns one row per paper, in order, each built from that paper's own lookup. |
| Results.RowsFollowPapers | paper_fetcher.py:394-407 | There are exactly as many rows as papers. Row `i` carries paper `i`'s title and authors, and its PDF column reads "Not Found" iff paper `i`'s lookup found nothing. |
| Results.LookupRow | paper_fetcher.py:399-405 | The three preprint columns all read "Not Found" iff the lookup returned `None`. A found row's PDF link is derived from its abstract-page link. |
| Records.ColumnName | paper_fetcher.py:399-405 | The key each value of a row is stored under, which becomes the column's heading. The names are distinct (`ColumnNameInjective`). |
| Records.Field | paper_fetcher.py:338 | `row[col]`: the value stored under a column's key. |
| MarkdownCell.LinkText | paper_fetcher.py:340-341 | A URL in a link column written as `[Link](url)`, any other value as it is. Characterised by `OnlyLinkColumnsWrap`. |
| MarkdownCell.EscapeChain | paper_fetcher.py:345-346 | The five replacements in the source's order. Related to the character-by-character escaping by `EscapeChainIsEscaped`. |
| MarkdownCell.Truncate | paper_fetcher.py:348-349 | A value longer than 100 characters outside the link columns cut to 97 characters and "...". |
| MarkdownCell.FormatCell | paper_fetcher.py:339-349 | The cell: link step, escaping, then the cut. Related to the source's chain by `FormatCellChain`; its shape is stated by `FormatCellShape`. |
| MarkdownCell.EscapeChainIsEscaped | paper_fetcher.py:345-346 | The five replacements, in the source's order, escape the text character by character. Pipe, underscore and asterisk gain a backslash, a line feed becomes a space, and a carriage return is dropped. |
| MarkdownCell.EscapedIsSafe | paper_fetcher.py:342-346 | Escaped text has no line feed or carriage return, and each of its pipes, underscores and asterisks directly follows a backslash. |
| MarkdownCell.EscapedPlain | paper_fetcher.py:345-346 | Text without special characters is left as it is. |
| MarkdownCell.EscapedHasEscapedLength | paper_fetcher.py:345-346 | Escaping lengthens the text by one per pipe, underscore and asterisk and shortens it by one per carriage return. |
| MarkdownCell.FormatCellShape | paper_fetcher.py:337-350 | Every cell is safe. A link-column cell is the escaped link text in full. Any other cell has at most 100 characters: it is kept whole when it fits, and is otherwise cut to its first 97 escaped characters followed by "...". |
| MarkdownCell.FormatCellChain | paper_fetcher.py:339-349 | The specified cell equals what the link step, the five chained replacements and the cut produce, in the source's order. |
| MarkdownCell.LinkColumnsByName | paper_fetcher.py:340-348 | The columns treated as link columns are exactly those whose names the source lists, "arXiv Link" and "PDF Link". |
| MarkdownCell.OnlyLinkColumnsWrap | paper_fetcher.py:340-341 | A value is rewritten as `[Link](url)` iff it sits in a link column, is not "Not Found", and starts with "http". |
| MarkdownCell.TruncationSplitsEscape | paper_fetcher.py:345-349 | Because escaping comes before truncation, a long title can lose the pipe of an escaped `\|` and keep its backslash. |
| MarkdownTable.Columns | paper_fetcher.py:330 | The DataFrame's columns: the five result columns, none for an empty table. |
| MarkdownTable.KeywordsText | paper_fetcher.py:323 | The keywords joined by ", ", or "None" without keywords. |
| MarkdownTable.RowCells | paper_fetcher.py:336-350 | The formatted cells of one row, one per column in column order. `FormatRowCells` is proved to build them. |
| MarkdownTable.Preamble | paper_fetcher.py:320-326 | The text above the table: title, search time, keywords joined by ", " or "None", the number of papers, and the "Paper List" heading. |
| MarkdownTable.Frame | paper_fetcher.py:331-332 | A line built as "\| " + cells joined by " \| " + " \|". Its separator count is stated by `FrameDelims`. |
| MarkdownTable.TableLines | paper_fetcher.py:330-351 | The header line, the rule line and one line per row. Its shape is stated by `TableIsRectangular`. |
| MarkdownTable.MarkdownDocument | paper_fetcher.py:316-354 | The whole file: preamble, table lines each ended by a line feed, footer. `ExportMarkdown` is proved to build it. |
| MarkdownTable.FormatRowCells | paper_fetcher.py:336-350 | The inner loop, with the source's replacement chain, produces for each header in order the cell the character-by-character specification gives, so each cell has the shape `FormatCellShape` states. |
| MarkdownTable.ExportMarkdown | paper_fetcher.py:316-354 | The text built with `+=` is the preamble, the header, rule and row lines, each followed by a line feed, and then the footer. |
| MarkdownTable.FrameDelims | paper_fetcher.py:331-332 | A line framed as `"\| " + " \| ".join(cells) + " \|"` from at least one cell, none with an unescaped pipe, has one more separator than it has cells. With no cells the frame is `"\|  \|"`, which has two. |
| MarkdownTable.HeaderLineShape | paper_fetcher.py:330-331 | For any non-empty list of columns, the header line has one separator per column plus one, and no line feed. |
| MarkdownTable.RuleLineShape | paper_fetcher.py:332 | The rule line under a non-empty header has one separator per column plus one, and no line feed. |
| MarkdownTable.DataLineShape | paper_fetcher.py:335-351 | For any non-empty list of columns and any row, the data line has one separator per column plus one, and no line feed. |
| MarkdownTable.TableLineShape | paper_fetcher.py:330-351 | For a non-empty list of columns, every line of the table, whether header, rule or data line, has one separator per column plus one, and no line feed. |
| MarkdownTable.TableIsRectangular | paper_fetcher.py:330-351 | The table of a non-empty result has the five result columns. It has \|rows\| + 2 lines, each with the same number of separators (one more than the number of columns) and no line feed. Line `i + 2` holds row `i`'s cells in column order. |
| MarkdownTable.UnlinesSplit | paper_fetcher.py:331-351 | Splitting the table text at line feeds gives its lines back, followed by one empty piece. |
| OutputFile.BaseName | paper_fetcher.py:195-198 | The given base name, else the keywords joined by "_", else "all_papers". Its properties are stated by `MainBaseAgrees` and `KeywordsFromBaseName`. |
| OutputFile.MainFilenameBase | paper_fetcher.py:416 | The keywords joined by "_", else "all_papers". |
| OutputFile.Extension | paper_fetcher.py:200-317 | The extension of each format: ".csv", ".xlsx", ".html", ".md". |
| OutputFile.PathJoin | paper_fetcher.py:201 | `os.path.join` on POSIX. Its behaviour is stated by `PathUnderResults`. |
| OutputFile.PathFor | paper_fetcher.py:200-317 | The base name with the format's extension, joined under "results". Its properties are stated by `PathDeterminesBaseAndFormat` and `PathForInjective`. |
| OutputFile.SavePath | paper_fetcher.py:195-317 | The path `save_results` reports, `None` for an output format it does not know. |
| OutputFile.SavePathByName | paper_fetcher.py:200-317 | Each format's name gives the path for that format. Any string other than the four names gives no path. |
| OutputFile.ParseFormat | paper_fetcher.py:200-316 | The format dispatch: each of the four names selects its format; any other string selects none. Characterised by `ParseFormatName`. |
| OutputFile.ParseFormatName | paper_fetcher.py:200-317 | Each format is selected by its own name and by no other string. |
| OutputFile.MainBaseAgrees | paper_fetcher.py:195-198 | The base name `main` passes in (line 416) is the one `save_results` would choose without it. |
| OutputFile.KeywordsFromBaseName | paper_fetcher.py:198 | For a non-empty keyword list and no given base name, splitting the file name at "_" gives back the keywords, provided none of them contains an underscore. Without keywords the name is "all_papers". |
| OutputFile.PathDeterminesBaseAndFormat | paper_fetcher.py:200-317 | The file name read back from the path has the format's extension and starts with the base name. |
| OutputFile.PathForInjective | paper_fetcher.py:200-317 | Different base names or formats never write to the same path. |
| OutputFile.PathUnderResults | paper_fetcher.py:190-317 | A relative name lands in "results/" and an absolute one replaces the directory, as `os.path.join` does. The path ends with the format's extension. |
| Pipeline.MainOutcome | paper_fetcher.py:374-419 | How `main` ends for the fetched papers: nothing fetched, nothing left after filtering, or the rows saved to a path. `RunMain` is proved to follow it; its properties are stated by `NoMatchesNeedsKeywords` and `SavedRunShape`. |
| Pipeline.RunMain | paper_fetcher.py:374-419 | `main`'s flow returns the specified outcome: stop when nothing was fetched; filter only when keywords are given; stop when nothing is left; otherwise save the rows. |
| Pipeline.NoMatchesNeedsKeywords | paper_fetcher.py:380-386 | A run can end with nothing left after filtering only when keywords were given. |
| Pipeline.SavedRunShape | paper_fetcher.py:380-419 | A saved run has one row per matching fetched paper, in order. Its path is the one `save_results` would name on its own, and it is the path `save_results` reports for the format's name. It carries Markdown text exactly for the Markdown format. |
| Text.Lower | paper_fetcher.py:87-88 | `str.lower` on ASCII: same length, each letter lowered. |
| Text.Split | paper_fetcher.py:112 | `str.split()` without arguments: the tokens, each non-empty and free of whitespace. |
| Text.Join | paper_fetcher.py:112 | `sep.join(parts)`. Inverted by `Split` and `SplitOn` in `SplitJoin` and `SplitOnJoin`. |
| Text.ReplaceAll | paper_fetcher.py:146 | `s.replace(pat, rep)`, replacing non-overlapping occurrences from left to right. Its properties are stated by `ReplaceRemovesAll` and `ReplaceCharConcat`. |
| Text.SplitOn | paper_fetcher.py:198 | `s.split(c)`, used to read the keywords back from a joined base name and the table back into lines. |
| Text.SplitJoin | paper_fetcher.py:112 | Splitting the space-join of tokens gives the tokens back. |
| Text.SplitWordChars | paper_fetcher.py:110-112 | The tokens of text made of word characters and whitespace contain only word characters. |
| Text.ReplaceRemovesAll | paper_fetcher.py:146 | With a non-empty replacement that shares no character with the pattern, no occurrence of the pattern is left after `replace`. An empty replacement can join two halves into a new occurrence. |
| Text.ReplaceKeepsPrefix | paper_fetcher.py:146 | A prefix in which no occurrence of the pattern starts is copied unchanged, and replacing continues after it. |
| Text.ReplaceCharConcat | paper_fetcher.py:345-346 | Replacing one character distributes over concatenation. |
| Text.SplitOnJoin | paper_fetcher.py:198 | For at least one piece, splitting the join of separator-free pieces at the separator gives the pieces back. Joining no pieces gives "", which splits into one empty piece. |

## Left out

- Fetching and scraping the listing (`fetch_cvpr_papers`, paper_fetcher.py:13-76) is not modelled. It is HTTP plus HTML parsing by BeautifulSoup. Its result, including the title-length check, is the parameter `fetched` of `Pipeline.RunMain`.
- The HTTP request and the XML parsing of the feed (paper_fetcher.py:133-139) are outside the model. `Matcher.ScanFeedAsWritten` takes the parsed entries, each with an optional title and id.
  - A missing `<title>` raises only when the loop reaches that entry. A missing `<id>` raises only for the first similar entry. `Matcher.ScanFeedDecidesAt` states both cases.
- The transport `api` of `search_arxiv` and of `main` delivers well-formed `(title, id)` pairs. A feed with a missing element cannot be expressed as such pairs, because whether it raises depends on where the scan stops. So the per-paper loop and `main` cover only well-formed feeds and failed requests. Malformed feeds are modelled only by `Matcher.ScanFeedAsWritten`, which `Matcher.WellFormedFeedScan` ties to the guarded scan.
- pandas is outside the model: building the DataFrame and writing CSV or Excel (paper_fetcher.py:178-183, 202, 205). The CSV and Excel branches are modelled only down to their file path.
- The HTML branch of `save_results` (paper_fetcher.py:209-315), including `make_clickable`, is left out. It is a template filled by pandas' `to_html`; only its file path is modelled.
- The clock (`time.strftime`) becomes the `timestamp` parameter. Directory creation, file writing, `time.sleep` and all printing are left out because they are I/O.
- `argparse` is left out. The output format arrives as a `Format` value, since argparse already restricts it to the four choices, and the keywords arrive as a sequence.
- `app.py` (the web front end) is not part of this model.
- `Text.Lower`, `Text.IsWordChar`, `Text.IsSpace`: cover ASCII only. Python's Unicode-aware `lower()`, `\w` and `\s` also treat non-ASCII letters and spaces.
- `Similarity.SimilarIsRatioAboveHalf`: compares with the exact real ratio. Python's float division agrees with it whenever the word counts are below 2^52.
- `MarkdownTable.Columns`: for an empty table it gives no columns, as the DataFrame would. `main` never reaches the exporter with an empty table.
- The Markdown preamble is not split into lines by any lemma. The keyword list and the timestamp are free text, so its line structure depends on them.
