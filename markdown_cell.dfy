/**
 * One cell of the Markdown table written by save_results: a URL in a link
 * column becomes `[Link](url)`, then the value is escaped by a chain of
 * five replacements (pipe, line feed, carriage return, underscore,
 * asterisk), and only then a long value outside the link columns is cut
 * to 97 characters and "...". Because truncation comes last it can cut an
 * escape in half.
 */
module MarkdownCell {
  import opened Text
  import opened Records

  /** The headings of the columns holding URLs, as the exporter lists them. */
  const LinkColumnNames: seq<string> := ["arXiv Link", "PDF Link"]

  /** A column holding URLs; its values are wrapped as links and never cut. */
  predicate IsLinkColumn(col: Column) {
    col == ArxivLink || col == PdfLink
  }

  /** The link columns are exactly those whose heading the exporter lists. */
  lemma LinkColumnsByName(col: Column)
    ensures IsLinkColumn(col) <==> ColumnName(col) in LinkColumnNames
  {
    forall other: Column ensures ColumnName(other) == ColumnName(col) <==> other == col {
      ColumnNameInjective(other, col);
    }
    assert LinkColumnNames == [ColumnName(ArxivLink), ColumnName(PdfLink)];
  }

  /** Longest cell outside the link columns. */
  const MaxCellLength: nat := 100

  /** Characters a cut cell keeps before the ellipsis. */
  const KeptLength: nat := 97

  const Ellipsis: string := "..."

  /** A value the exporter turns into a Markdown link. */
  predicate IsLinkValue(col: Column, val: string) {
    IsLinkColumn(col) && val != NotFound && StartsWith(val, "http")
  }

  function LinkText(col: Column, val: string): string {
    if IsLinkValue(col, val) then "[Link](" + val + ")" else val
  }

  /** The replacement chain, in the order the exporter applies it. */
  function EscapeChain(val: string): string {
    var v1 := ReplaceAll(val, "|", "\\|");
    var v2 := ReplaceAll(v1, "\n", " ");
    var v3 := ReplaceAll(v2, "\r", "");
    var v4 := ReplaceAll(v3, "_", "\\_");
    ReplaceAll(v4, "*", "\\*")
  }

  /** What the chain does to one character. */
  function EscapeChar(c: char): string {
    match c
    case '|' => "\\|"
    case '\n' => " "
    case '\r' => ""
    case '_' => "\\_"
    case '*' => "\\*"
    case _ => [c]
  }

  /** Character-by-character reference definition of the escaping. */
  function Escaped(s: string): string {
    if s == [] then [] else EscapeChar(s[0]) + Escaped(s[1..])
  }

  lemma EscapedConcat(a: string, b: string)
    ensures Escaped(a + b) == Escaped(a) + Escaped(b)
  {
    if a != [] {
      assert (a + b)[1..] == a[1..] + b;
      EscapedConcat(a[1..], b);
    } else {
      assert a + b == b;
    }
  }

  lemma EscapeChainConcat(a: string, b: string)
    ensures EscapeChain(a + b) == EscapeChain(a) + EscapeChain(b)
  {
    var a1, b1 := ReplaceAll(a, "|", "\\|"), ReplaceAll(b, "|", "\\|");
    ReplaceCharConcat(a, b, '|', "\\|");
    var a2, b2 := ReplaceAll(a1, "\n", " "), ReplaceAll(b1, "\n", " ");
    ReplaceCharConcat(a1, b1, '\n', " ");
    var a3, b3 := ReplaceAll(a2, "\r", ""), ReplaceAll(b2, "\r", "");
    ReplaceCharConcat(a2, b2, '\r', "");
    var a4, b4 := ReplaceAll(a3, "_", "\\_"), ReplaceAll(b3, "_", "\\_");
    ReplaceCharConcat(a3, b3, '_', "\\_");
    ReplaceCharConcat(a4, b4, '*', "\\*");
  }

  /** A replacement of a character absent from the text changes nothing. */
  lemma {:induction false} ReplaceCharAbsent(s: string, c: char, rep: string)
    requires c !in s
    ensures ReplaceAll(s, [c], rep) == s
  {
    if s != [] {
      ReplaceCharConcat([s[0]], s[1..], c, rep);
      ReplaceCharSingle(s[0], c, rep);
      ReplaceCharAbsent(s[1..], c, rep);
      assert [s[0]] + s[1..] == s;
    }
  }

  /** The chain applied to a single character. */
  lemma EscapeChainChar(c: char)
    ensures EscapeChain([c]) == EscapeChar(c)
  {
    ReplaceCharSingle(c, '|', "\\|");
    var v1 := ReplaceAll([c], "|", "\\|");
    if c == '\n' {
      ReplaceCharSingle(c, '\n', " ");
    } else {
      ReplaceCharAbsent(v1, '\n', " ");
    }
    var v2 := ReplaceAll(v1, "\n", " ");
    if c == '\r' {
      ReplaceCharSingle(c, '\r', "");
    } else {
      ReplaceCharAbsent(v2, '\r', "");
    }
    var v3 := ReplaceAll(v2, "\r", "");
    if c == '_' {
      ReplaceCharSingle(c, '_', "\\_");
    } else {
      ReplaceCharAbsent(v3, '_', "\\_");
    }
    var v4 := ReplaceAll(v3, "_", "\\_");
    if c == '*' {
      ReplaceCharSingle(c, '*', "\\*");
    } else {
      ReplaceCharAbsent(v4, '*', "\\*");
    }
  }

  /** The exporter's replacement chain escapes character by character. */
  lemma {:induction false} EscapeChainIsEscaped(s: string)
    ensures EscapeChain(s) == Escaped(s)
  {
    if s != [] {
      assert s == [s[0]] + s[1..];
      EscapeChainConcat([s[0]], s[1..]);
      EscapeChainChar(s[0]);
      EscapeChainIsEscaped(s[1..]);
    }
  }

  /** Every occurrence of `special` directly follows a backslash. */
  predicate Escapes(s: string, special: char) {
    forall i :: 0 <= i < |s| && s[i] == special ==> i > 0 && s[i - 1] == '\\'
  }

  predicate NoLineBreak(s: string) {
    forall i :: 0 <= i < |s| ==> s[i] != '\n' && s[i] != '\r'
  }

  /** A cell that cannot break its table row or start emphasis. */
  predicate CellSafe(s: string) {
    Escapes(s, '|') && Escapes(s, '_') && Escapes(s, '*') && NoLineBreak(s)
  }

  predicate IsSpecial(c: char) {
    c == '|' || c == '\n' || c == '\r' || c == '_' || c == '*'
  }

  lemma EscapesConcat(a: string, b: string, special: char)
    requires Escapes(a, special) && Escapes(b, special)
    ensures Escapes(a + b, special)
  {
    var s := a + b;
    forall i | 0 <= i < |s| && s[i] == special ensures i > 0 && s[i - 1] == '\\' {
      if i < |a| {
        assert s[i] == a[i];
        if i > 0 {
          assert s[i - 1] == a[i - 1];
        }
      } else {
        assert s[i] == b[i - |a|];
        if i > |a| {
          assert s[i - 1] == b[i - 1 - |a|];
        }
      }
    }
  }

  lemma CellSafeConcat(a: string, b: string)
    requires CellSafe(a) && CellSafe(b)
    ensures CellSafe(a + b)
  {
    EscapesConcat(a, b, '|');
    EscapesConcat(a, b, '_');
    EscapesConcat(a, b, '*');
    var s := a + b;
    forall i | |a| <= i < |s| ensures s[i] == b[i - |a|] {
    }
  }

  lemma CellSafePrefix(s: string, n: nat)
    requires CellSafe(s) && n <= |s|
    ensures CellSafe(s[..n])
  {
  }

  /** Escaped text has no line break and every pipe, underscore and
      asterisk in it is backslash-escaped. */
  lemma {:induction false} EscapedIsSafe(s: string)
    ensures CellSafe(Escaped(s))
  {
    if s != [] {
      EscapedIsSafe(s[1..]);
      CellSafeConcat(EscapeChar(s[0]), Escaped(s[1..]));
    }
  }

  /** Text without special characters is left as it is. */
  lemma {:induction false} EscapedPlain(s: string)
    requires forall i :: 0 <= i < |s| ==> !IsSpecial(s[i])
    ensures Escaped(s) == s
  {
    if s != [] {
      EscapedPlain(s[1..]);
      assert [s[0]] + s[1..] == s;
    }
  }

  /** Every special character of the value is accounted for: the escaped
      text has one more character per pipe, underscore and asterisk, one
      fewer per carriage return. */
  function EscapedLength(s: string): nat {
    if s == [] then 0
    else
      (if s[0] == '|' || s[0] == '_' || s[0] == '*' then 2 else if s[0] == '\r' then 0 else 1)
      + EscapedLength(s[1..])
  }

  lemma {:induction false} EscapedHasEscapedLength(s: string)
    ensures |Escaped(s)| == EscapedLength(s)
  {
    if s != [] {
      EscapedHasEscapedLength(s[1..]);
    }
  }

  /** The cut of long cells outside the link columns. */
  function Truncate(col: Column, v: string): string {
    if |v| > MaxCellLength && !IsLinkColumn(col) then v[..KeptLength] + Ellipsis else v
  }

  /** The text written for one cell, with the escaping stated character by
      character. */
  function FormatCell(col: Column, val: string): string {
    Truncate(col, Escaped(LinkText(col, val)))
  }

  /** The cell is what the exporter's link step, replacement chain and cut
      produce, in that order. */
  lemma FormatCellChain(col: Column, val: string)
    ensures FormatCell(col, val) == Truncate(col, EscapeChain(LinkText(col, val)))
  {
    EscapeChainIsEscaped(LinkText(col, val));
  }

  /** A cell is safe; a link cell is the escaped link text in full; any
      other cell is at most 100 characters, kept whole when the escaped text
      fits and cut to its first 97 characters and "..." when it does not. */
  lemma FormatCellShape(col: Column, val: string)
    ensures var e, cell := Escaped(LinkText(col, val)), FormatCell(col, val);
      && CellSafe(cell)
      && (IsLinkColumn(col) ==> cell == e)
      && (!IsLinkColumn(col) ==> |cell| <= MaxCellLength)
      && (|e| <= MaxCellLength ==> cell == e)
      && (!IsLinkColumn(col) && |e| > MaxCellLength ==> cell == e[..KeptLength] + Ellipsis)
  {
    var e := Escaped(LinkText(col, val));
    EscapedIsSafe(LinkText(col, val));
    if |e| > MaxCellLength && !IsLinkColumn(col) {
      CellSafePrefix(e, KeptLength);
      CellSafeConcat(e[..KeptLength], Ellipsis);
    }
  }

  /** Outside the link columns a URL is written as it is. */
  lemma OnlyLinkColumnsWrap(col: Column, val: string)
    ensures LinkText(col, val) != val <==> IsLinkValue(col, val)
  {
    if IsLinkValue(col, val) {
      assert |LinkText(col, val)| == |val| + 8;
    }
  }

  /** Truncating after escaping can cut an escape in half: a title whose
      97th escaped character is the backslash of an escaped pipe keeps the
      backslash and loses the pipe. */
  lemma TruncationSplitsEscape()
    ensures var val := seq(96, _ => 'a') + "|" + seq(10, _ => 'a');
      var cell := FormatCell(CvprTitle, val);
      && '|' in val
      && cell == seq(96, _ => 'a') + "\\" + Ellipsis
      && '|' !in cell
  {
    var a96, a10 := seq(96, _ => 'a'), seq(10, _ => 'a');
    var val := a96 + "|" + a10;
    assert LinkText(CvprTitle, val) == val;
    EscapedConcat(a96 + "|", a10);
    EscapedConcat(a96, "|");
    EscapedPlain(a96);
    EscapedPlain(a10);
    var e := a96 + "\\|" + a10;
    assert Escaped(val) == e;
    assert e[..KeptLength] == a96 + "\\";
    assert val[96] == '|';
    var cell := FormatCell(CvprTitle, val);
    assert cell == a96 + "\\" + Ellipsis;
    forall i | 0 <= i < |cell| ensures cell[i] != '|' {
      if i < 96 {
        assert cell[i] == a96[i];
      }
    }
  }
}
