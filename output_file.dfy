/**
 * Where save_results writes: a base name (the caller's, else the keywords
 * joined by "_", else "all_papers"), an extension chosen by the output
 * format, and the two joined under the "results" directory the way
 * os.path.join does.
 */
module OutputFile {
  import opened Text
  import opened Records

  datatype Format = Csv | Excel | Html | Markdown

  /** The output_format value that selects each format. */
  function FormatName(f: Format): string {
    match f
    case Csv => "csv"
    case Excel => "excel"
    case Html => "html"
    case Markdown => "markdown"
  }

  /** The format an output_format value selects; None for any other value,
      for which save_results reaches its final report with no file name and
      fails. */
  function ParseFormat(s: string): Option<Format> {
    if s == "csv" then Some(Csv)
    else if s == "excel" then Some(Excel)
    else if s == "html" then Some(Html)
    else if s == "markdown" then Some(Markdown)
    else None
  }

  /** Each format is selected by its own name and by nothing else. */
  lemma ParseFormatName(s: string, f: Format)
    ensures ParseFormat(FormatName(f)) == Some(f)
    ensures ParseFormat(s) == Some(f) <==> s == FormatName(f)
  {
  }

  function Extension(f: Format): string {
    match f
    case Csv => ".csv"
    case Excel => ".xlsx"
    case Html => ".html"
    case Markdown => ".md"
  }

  const ResultsDir: string := "results"

  const DefaultBaseName: string := "all_papers"

  /** The base name save_results uses; "" stands for an absent
      filename_base and [] for absent keywords. */
  function BaseName(keywords: seq<string>, filenameBase: string): string {
    if filenameBase != [] then filenameBase
    else if keywords != [] then Join("_", keywords)
    else DefaultBaseName
  }

  /** The filename_base main passes to save_results. */
  function MainFilenameBase(keywords: seq<string>): string {
    if keywords != [] then Join("_", keywords) else DefaultBaseName
  }

  /** main's own choice of base name is the one save_results would make
      without it. */
  lemma MainBaseAgrees(keywords: seq<string>)
    ensures BaseName(keywords, MainFilenameBase(keywords)) == BaseName(keywords, "")
  {
  }

  /** Without a base name, the keywords can be read back from the file
      name when none of them contains an underscore. */
  lemma KeywordsFromBaseName(keywords: seq<string>)
    requires keywords != []
    requires forall k :: 0 <= k < |keywords| ==> '_' !in keywords[k]
    ensures SplitOn('_', BaseName(keywords, "")) == keywords
  {
    SplitOnJoin('_', keywords);
  }

  /** os.path.join(dir, name) on POSIX: an absolute name replaces the
      directory, otherwise a separator is put between them unless the
      directory already ends with one. */
  function PathJoin(dir: string, name: string): string {
    if StartsWith(name, "/") then name
    else if dir == [] || dir[|dir| - 1] == '/' then dir + name
    else dir + "/" + name
  }

  /** The file written for a base name and a format. */
  function PathFor(base: string, f: Format): string {
    PathJoin(ResultsDir, base + Extension(f))
  }

  /** The path save_results reports, None when the format is unknown. */
  function SavePath(keywords: seq<string>, filenameBase: string, outputFormat: string): Option<string> {
    match ParseFormat(outputFormat)
    case None => None
    case Some(f) => Some(PathFor(BaseName(keywords, filenameBase), f))
  }

  /** Only the four format names give a path, each the path for its own
      format; any other output_format gives none. */
  lemma SavePathByName(keywords: seq<string>, filenameBase: string, s: string, f: Format)
    ensures SavePath(keywords, filenameBase, FormatName(f)) == Some(PathFor(BaseName(keywords, filenameBase), f))
    ensures SavePath(keywords, filenameBase, s).None? <==> s != "csv" && s != "excel" && s != "html" && s != "markdown"
  {
    ParseFormatName(s, f);
  }

  /** The file name inside the results directory, read back from a path. */
  function NameOfPath(path: string): string {
    if StartsWith(path, "/") || |path| < |ResultsDir| + 1 then path else path[|ResultsDir| + 1..]
  }

  /** The format a file name's extension stands for. */
  function FormatOfName(name: string): Option<Format> {
    if EndsWith(name, ".csv") then Some(Csv)
    else if EndsWith(name, ".xlsx") then Some(Excel)
    else if EndsWith(name, ".html") then Some(Html)
    else if EndsWith(name, ".md") then Some(Markdown)
    else None
  }

  lemma NameOfPathFor(name: string)
    ensures NameOfPath(PathJoin(ResultsDir, name)) == name
  {
    var path := PathJoin(ResultsDir, name);
    if !StartsWith(name, "/") {
      assert path == "results/" + name;
      assert path[0] == 'r';
    }
  }

  lemma EndsWithAppended(base: string, e: string)
    ensures EndsWith(base + e, e)
  {
    assert (base + e)[|base + e| - |e|..] == e;
  }

  /** A name whose last character differs from the suffix's does not end
      with it. */
  lemma LastCharDiffers(name: string, suffix: string)
    requires |name| > 0 && |suffix| > 0 && name[|name| - 1] != suffix[|suffix| - 1]
    ensures !EndsWith(name, suffix)
  {
  }

  lemma FormatOfNameFor(base: string, f: Format)
    ensures FormatOfName(base + Extension(f)) == Some(f)
  {
    var e := Extension(f);
    var name := base + e;
    EndsWithAppended(base, e);
    assert name[|name| - 1] == e[|e| - 1];
    match f
    case Csv =>
    case Excel =>
      LastCharDiffers(name, ".csv");
    case Html =>
      LastCharDiffers(name, ".csv");
      LastCharDiffers(name, ".xlsx");
    case Markdown =>
      LastCharDiffers(name, ".csv");
      LastCharDiffers(name, ".xlsx");
      LastCharDiffers(name, ".html");
  }

  /** The path determines the format and the base name: different base
      names or formats never write to the same file. */
  lemma PathDeterminesBaseAndFormat(base: string, f: Format)
    ensures var name := NameOfPath(PathFor(base, f));
      && FormatOfName(name) == Some(f)
      && name[..|name| - |Extension(f)|] == base
  {
    NameOfPathFor(base + Extension(f));
    FormatOfNameFor(base, f);
  }

  lemma PathForInjective(base1: string, f1: Format, base2: string, f2: Format)
    requires PathFor(base1, f1) == PathFor(base2, f2)
    ensures base1 == base2 && f1 == f2
  {
    PathDeterminesBaseAndFormat(base1, f1);
    PathDeterminesBaseAndFormat(base2, f2);
  }

  /** A relative base name lands in the results directory, an absolute one
      does not. */
  lemma PathUnderResults(base: string, f: Format)
    ensures !StartsWith(base + Extension(f), "/") ==> PathFor(base, f) == "results/" + base + Extension(f)
    ensures StartsWith(base + Extension(f), "/") ==> PathFor(base, f) == base + Extension(f)
    ensures EndsWith(PathFor(base, f), Extension(f))
  {
    var name := base + Extension(f);
    var path := PathFor(base, f);
    assert path[|path| - |Extension(f)|..] == Extension(f);
  }
}
