/**
 * The Markdown document of save_results: a fixed preamble with the search
 * time, the keywords and the number of papers, then a table with a header
 * line, a rule line and one line per result row, each framed as
 * "| " + cells joined by " | " + " |", and a footer.
 *
 * A cell separator is a pipe not directly preceded by a backslash (an
 * escaped pipe, "\|", is cell content in GitHub-flavoured Markdown).
 */
module MarkdownTable {
  import opened Text
  import opened Records
  import opened MarkdownCell

  /** The columns of the result table, in the order the rows give them. */
  const ResultColumns: seq<Column> := [CvprTitle, CvprAuthors, ArxivLink, PdfLink, ArxivTitle]

  const Footer: string := "\n\n*Generated by CVPR Paper Search Tool*"

  /** The table's columns: the five result columns, none for an empty table. */
  function Columns(rows: seq<ResultRow>): seq<Column> {
    if rows == [] then [] else ResultColumns
  }

  /** "| " + " | ".join(cells) + " |". */
  function Frame(cells: seq<string>): string {
    "| " + Join(" | ", cells) + " |"
  }

  /** ["---"] * n. */
  function Rules(n: nat): seq<string> {
    seq(n, _ => "---")
  }

  /** The headings of the columns, as the header line joins them. */
  function ColumnNames(headers: seq<Column>): seq<string> {
    seq(|headers|, j requires 0 <= j < |headers| => ColumnName(headers[j]))
  }

  /** The formatted cells of one row, one per header in header order. */
  function RowCells(headers: seq<Column>, row: ResultRow): seq<string> {
    seq(|headers|, j requires 0 <= j < |headers| => FormatCell(headers[j], Field(row, headers[j])))
  }

  /** The lines of the table: header, rule, one line per row. */
  function TableLines(headers: seq<Column>, rows: seq<ResultRow>): seq<string> {
    [Frame(ColumnNames(headers)), Frame(Rules(|headers|))]
      + seq(|rows|, i requires 0 <= i < |rows| => Frame(RowCells(headers, rows[i])))
  }

  /** Each line followed by a line feed. */
  function Unlines(lines: seq<string>): string {
    if lines == [] then [] else lines[0] + "\n" + Unlines(lines[1..])
  }

  function KeywordsText(keywords: seq<string>): string {
    if keywords == [] then "None" else Join(", ", keywords)
  }

  /** Everything above the table; the search time is the caller's. */
  function Preamble(timestamp: string, keywords: seq<string>, total: nat): string {
    "# CVPR Paper Search Results\n\n"
      + "## Search Information\n\n"
      + "- Search time: " + timestamp + "\n"
      + "- Keywords: " + KeywordsText(keywords) + "\n"
      + "- Total papers found: " + NatToString(total) + "\n\n"
      + "## Paper List\n\n"
  }

  /** The whole Markdown file. */
  function MarkdownDocument(timestamp: string, keywords: seq<string>, rows: seq<ResultRow>): string {
    Preamble(timestamp, keywords, |rows|) + Unlines(TableLines(Columns(rows), rows)) + Footer
  }

  // ---------------------------------------------------------------------
  // The exporter's loops

  /** The inner loop: the cells of one row. */
  method FormatRowCells(headers: seq<Column>, row: ResultRow) returns (cells: seq<string>)
    ensures cells == RowCells(headers, row)
  {
    cells := [];
    var j := 0;
    while j < |headers|
      invariant 0 <= j <= |headers|
      invariant cells == RowCells(headers, row)[..j]
    {
      var col := headers[j];
      var val := Field(row, col);
      if IsLinkColumn(col) && val != NotFound && StartsWith(val, "http") {
        val := "[Link](" + val + ")";
      }
      FormatCellChain(col, Field(row, col));
      val := ReplaceAll(ReplaceAll(ReplaceAll(val, "|", "\\|"), "\n", " "), "\r", "");
      val := ReplaceAll(ReplaceAll(val, "_", "\\_"), "*", "\\*");
      if |val| > MaxCellLength && !IsLinkColumn(col) {
        val := val[..KeptLength] + Ellipsis;
      }
      PrefixExtend(RowCells(headers, row), j);
      cells := cells + [val];
      j := j + 1;
    }
  }

  lemma TableLinesAppend(headers: seq<Column>, rows: seq<ResultRow>, i: nat)
    requires i < |rows|
    ensures TableLines(headers, rows[..i + 1]) == TableLines(headers, rows[..i]) + [Frame(RowCells(headers, rows[i]))]
  {
    var longer, shorter := TableLines(headers, rows[..i + 1]), TableLines(headers, rows[..i]);
    assert |longer| == |shorter| + 1;
    forall l | 2 <= l < |shorter| ensures longer[l] == shorter[l] {
      assert rows[..i + 1][l - 2] == rows[..i][l - 2];
    }
  }

  lemma UnlinesAppend(lines: seq<string>, line: string)
    ensures Unlines(lines + [line]) == Unlines(lines) + line + "\n"
  {
    if lines != [] {
      assert (lines + [line])[1..] == lines[1..] + [line];
      UnlinesAppend(lines[1..], line);
    }
  }

  /** Appending a line to a text that ends with the lines `lines`. */
  lemma AppendLine(pre: string, lines: seq<string>, line: string, md: string)
    requires md == pre + Unlines(lines)
    ensures md + line + "\n" == pre + Unlines(lines + [line])
  {
    UnlinesAppend(lines, line);
  }

  /** The header and rule lines are the table's first two lines. */
  lemma HeadLines(pre: string, headers: seq<Column>)
    ensures pre + Frame(ColumnNames(headers)) + "\n" + Frame(Rules(|headers|)) + "\n" == pre + Unlines(TableLines(headers, []))
  {
    var headerLine, ruleLine := Frame(ColumnNames(headers)), Frame(Rules(|headers|));
    UnlinesAppend([], headerLine);
    UnlinesAppend([headerLine], ruleLine);
    assert TableLines(headers, []) == [headerLine] + [ruleLine];
  }

  /** The Markdown branch of save_results, growing the text line by line. */
  method ExportMarkdown(timestamp: string, keywords: seq<string>, rows: seq<ResultRow>) returns (md: string)
    ensures md == MarkdownDocument(timestamp, keywords, rows)
  {
    var pre := Preamble(timestamp, keywords, |rows|);
    md := pre;
    var headers := Columns(rows);
    md := md + Frame(ColumnNames(headers)) + "\n";
    md := md + Frame(Rules(|headers|)) + "\n";
    HeadLines(pre, headers);
    assert md == pre + Unlines(TableLines(headers, rows[..0])) by {
      assert rows[..0] == [];
    }
    var i := 0;
    while i < |rows|
      invariant 0 <= i <= |rows|
      invariant md == pre + Unlines(TableLines(headers, rows[..i]))
    {
      var cells := FormatRowCells(headers, rows[i]);
      AppendLine(pre, TableLines(headers, rows[..i]), Frame(cells), md);
      TableLinesAppend(headers, rows, i);
      md := md + Frame(cells) + "\n";
      i := i + 1;
    }
    assert rows[..|rows|] == rows;
    md := md + "\n\n*Generated by CVPR Paper Search Tool*";
  }

  // ---------------------------------------------------------------------
  // Shape of the table

  /** A pipe that separates cells. */
  predicate IsDelimAt(s: string, i: nat)
    requires i < |s|
  {
    s[i] == '|' && (i == 0 || s[i - 1] != '\\')
  }

  /** Number of cell separators in a line. */
  function Delims(s: string): nat
    decreases |s|
  {
    if s == [] then 0 else Delims(s[..|s| - 1]) + (if IsDelimAt(s, |s| - 1) then 1 else 0)
  }

  /** Separators add up across a seam that does not put a backslash before
      a pipe. */
  lemma {:induction false} DelimsConcat(a: string, b: string)
    requires a == [] || b == [] || b[0] != '|' || a[|a| - 1] != '\\'
    ensures Delims(a + b) == Delims(a) + Delims(b)
    decreases |b|
  {
    if b == [] {
      assert a + b == a;
    } else {
      var s, init := a + b, b[..|b| - 1];
      assert s[..|s| - 1] == a + init;
      if init != [] {
        DelimsConcat(a, init);
        assert s[|s| - 2] == b[|b| - 2];
      } else {
        assert a + init == a;
      }
      assert IsDelimAt(s, |s| - 1) == IsDelimAt(b, |b| - 1);
    }
  }

  /** A text whose pipes are all escaped holds no separator. */
  lemma {:induction false} EscapedPipesNoDelims(s: string)
    requires Escapes(s, '|')
    ensures Delims(s) == 0
    decreases |s|
  {
    if s != [] {
      var init := s[..|s| - 1];
      assert Escapes(init, '|') by {
        forall i | 0 <= i < |init| && init[i] == '|' ensures i > 0 && init[i - 1] == '\\' {
          assert s[i] == init[i];
        }
      }
      EscapedPipesNoDelims(init);
    }
  }

  predicate NoNewline(s: string) {
    forall i :: 0 <= i < |s| ==> s[i] != '\n'
  }

  /** The cells joined by " | " hold one separator per seam, and do not
      start with a pipe. */
  lemma {:induction false} JoinDelims(cells: seq<string>)
    requires cells != []
    requires forall k :: 0 <= k < |cells| ==> Escapes(cells[k], '|')
    ensures Delims(Join(" | ", cells)) == |cells| - 1
    ensures Join(" | ", cells) == [] || Join(" | ", cells)[0] != '|'
  {
    var c := cells[0];
    if |cells| == 1 {
      EscapedPipesNoDelims(c);
    } else {
      var rest := Join(" | ", cells[1..]);
      JoinDelims(cells[1..]);
      EscapedPipesNoDelims(c);
      DelimsConcat(" | ", rest);
      assert Delims(" | ") == 1 by {
        assert " | "[..2] == " |" && " |"[..1] == " ";
        assert Delims(" ") == 0 by {
          assert " "[..0] == [];
        }
      }
      DelimsConcat(c, " | " + rest);
      assert c + " | " + rest == c + (" | " + rest);
    }
  }

  /** A framed line has one separator more than it has cells. */
  lemma FrameDelims(cells: seq<string>)
    requires cells != []
    requires forall k :: 0 <= k < |cells| ==> Escapes(cells[k], '|')
    ensures Delims(Frame(cells)) == |cells| + 1
  {
    var body := Join(" | ", cells);
    JoinDelims(cells);
    DelimsConcat("| ", body);
    DelimsConcat("| " + body, " |");
    assert Delims("| ") == 1 by {
      assert "| "[..1] == "|" && "|"[..0] == [];
    }
    assert Delims(" |") == 1 by {
      assert " |"[..1] == " " && " "[..0] == [];
    }
  }

  lemma FrameNoNewline(cells: seq<string>)
    requires forall k :: 0 <= k < |cells| ==> NoNewline(cells[k])
    ensures NoNewline(Frame(cells))
  {
    var body := Join(" | ", cells);
    forall i | 0 <= i < |body| ensures body[i] != '\n' {
      JoinChars(" | ", cells, i);
    }
    var line := Frame(cells);
    forall i | 0 <= i < |line| ensures line[i] != '\n' {
      if 2 <= i < 2 + |body| {
        assert line[i] == body[i - 2];
      }
    }
  }

  /** A column heading holds no pipe and no line feed. */
  lemma ColumnNamePlain(col: Column)
    ensures Escapes(ColumnName(col), '|') && NoNewline(ColumnName(col))
  {
    var name := ColumnName(col);
    assert '|' !in name && '\n' !in name;
  }

  /** A framed list of cells that cannot break a row. */
  lemma SafeLineShape(cells: seq<string>)
    requires cells != []
    requires forall k :: 0 <= k < |cells| ==> Escapes(cells[k], '|') && NoNewline(cells[k])
    ensures Delims(Frame(cells)) == |cells| + 1 && NoNewline(Frame(cells))
  {
    FrameDelims(cells);
    FrameNoNewline(cells);
  }

  /** The header line has a separator per column and one more, and no
      line feed. */
  lemma HeaderLineShape(headers: seq<Column>)
    requires headers != []
    ensures var line := Frame(ColumnNames(headers));
      Delims(line) == |headers| + 1 && NoNewline(line)
  {
    var names := ColumnNames(headers);
    forall k | 0 <= k < |names| ensures Escapes(names[k], '|') && NoNewline(names[k]) {
      ColumnNamePlain(headers[k]);
    }
    SafeLineShape(names);
  }

  /** So has the rule line under it. */
  lemma RuleLineShape(n: nat)
    requires n > 0
    ensures var line := Frame(Rules(n));
      Delims(line) == n + 1 && NoNewline(line)
  {
    var rules := Rules(n);
    assert forall k :: 0 <= k < |rules| ==> rules[k] == "---";
    SafeLineShape(rules);
  }

  /** So has each data line. */
  lemma DataLineShape(headers: seq<Column>, row: ResultRow)
    requires headers != []
    ensures var line := Frame(RowCells(headers, row));
      Delims(line) == |headers| + 1 && NoNewline(line)
  {
    var cells := RowCells(headers, row);
    forall k | 0 <= k < |cells| ensures Escapes(cells[k], '|') && NoNewline(cells[k]) {
      FormatCellShape(headers[k], Field(row, headers[k]));
    }
    SafeLineShape(cells);
  }

  /** The table's first line is the header line. */
  lemma TableHeaderAt(headers: seq<Column>, rows: seq<ResultRow>)
    ensures TableLines(headers, rows)[0] == Frame(ColumnNames(headers))
  {
  }

  /** Its second line is the rule line. */
  lemma TableRuleAt(headers: seq<Column>, rows: seq<ResultRow>)
    ensures TableLines(headers, rows)[1] == Frame(Rules(|headers|))
  {
  }

  /** After them comes one line per row, in row order. */
  lemma TableDataAt(headers: seq<Column>, rows: seq<ResultRow>, l: nat)
    requires 2 <= l < |rows| + 2
    ensures TableLines(headers, rows)[l] == Frame(RowCells(headers, rows[l - 2]))
  {
  }

  /** One line of the table, the header, the rule or a data line, has a
      separator per column and one more, and no line feed. */
  lemma TableLineShape(headers: seq<Column>, rows: seq<ResultRow>, l: nat)
    requires headers != [] && l < |rows| + 2
    ensures var line := TableLines(headers, rows)[l];
      Delims(line) == |headers| + 1 && NoNewline(line)
  {
    if l == 0 {
      TableHeaderAt(headers, rows);
      HeaderLineShape(headers);
    } else if l == 1 {
      TableRuleAt(headers, rows);
      RuleLineShape(|headers|);
    } else {
      TableDataAt(headers, rows, l);
      DataLineShape(headers, rows[l - 2]);
    }
  }

  /** The table of a non-empty result has the five result columns. Every
      line has the same number of separators, one more than there are
      columns, and no line feed; after the header and rule lines there is
      one line per row, made of that row's cells in column order. */
  lemma TableIsRectangular(rows: seq<ResultRow>)
    requires rows != []
    ensures Columns(rows) == ResultColumns
    ensures var lines := TableLines(Columns(rows), rows);
      && |lines| == |rows| + 2
      && (forall l :: 0 <= l < |lines| ==> Delims(lines[l]) == |ResultColumns| + 1 && NoNewline(lines[l]))
      && (forall l :: 2 <= l < |lines| ==> lines[l] == Frame(RowCells(ResultColumns, rows[l - 2])))
  {
    var headers := Columns(rows);
    var lines := TableLines(headers, rows);
    forall l | 0 <= l < |lines| ensures Delims(lines[l]) == |headers| + 1 && NoNewline(lines[l]) {
      TableLineShape(headers, rows, l);
    }
  }

  /** Splitting the table text at line feeds gives its lines back, with the
      empty piece after the last line feed. */
  lemma {:induction false} UnlinesSplit(lines: seq<string>)
    requires forall l :: 0 <= l < |lines| ==> NoNewline(lines[l])
    ensures SplitOn('\n', Unlines(lines)) == lines + [""]
  {
    if lines != [] {
      UnlinesSplit(lines[1..]);
      assert '\n' !in lines[0] by {
        assert NoNewline(lines[0]);
      }
      SplitOnFirstSeparator('\n', lines[0], Unlines(lines[1..]));
      assert lines == [lines[0]] + lines[1..];
    }
  }
}
