/**
 * String primitives that paper_fetcher.py takes from Python: the character
 * classes of its regular expressions, str.lower, substring search, str.split,
 * str.join and str.replace. Characters are restricted to ASCII where Python
 * would consult the Unicode database.
 */
module Text {

  /** The class [A-Za-z] of the first-author pattern. */
  predicate IsAsciiLetter(c: char) {
    'A' <= c <= 'Z' || 'a' <= c <= 'z'
  }

  predicate IsDigit(c: char) {
    '0' <= c <= '9'
  }

  /** The regular-expression class \w (ASCII part). */
  predicate IsWordChar(c: char) {
    IsAsciiLetter(c) || IsDigit(c) || c == '_'
  }

  /** Whitespace as str.isspace, \s and str.split() see it (ASCII part):
      space, tab, line feed, vertical tab, form feed, carriage return and
      the four separators 0x1C..0x1F. */
  predicate IsSpace(c: char) {
    c == ' ' || '\t' <= c <= '\r' || '\U{1C}' <= c <= '\U{1F}'
  }

  /** str.lower on one character (ASCII part). */
  function LowerChar(c: char): (l: char)
    ensures IsAsciiLetter(c) <==> IsAsciiLetter(l)
    ensures !('A' <= l <= 'Z')
    ensures 'a' <= c <= 'z' ==> l == c
  {
    if 'A' <= c <= 'Z' then (c as int + 32) as char else c
  }

  function Lower(s: string): (r: string)
    ensures |r| == |s|
    ensures forall i :: 0 <= i < |s| ==> r[i] == LowerChar(s[i])
  {
    seq(|s|, i requires 0 <= i < |s| => LowerChar(s[i]))
  }

  lemma LowerIdempotent(s: string)
    ensures Lower(Lower(s)) == Lower(s)
  {
  }

  lemma LowerSlice(s: string, i: nat, j: nat)
    requires i <= j <= |s|
    ensures Lower(s)[i..j] == Lower(s[i..j])
  {
  }

  /** `needle` occurs in `hay` starting at index i. */
  predicate OccursAt(needle: string, hay: string, i: int) {
    0 <= i && i + |needle| <= |hay| && hay[i..i + |needle|] == needle
  }

  /** Python's `needle in hay` on strings. */
  predicate IsSubstring(needle: string, hay: string) {
    exists i :: 0 <= i <= |hay| - |needle| && OccursAt(needle, hay, i)
  }

  predicate StartsWith(s: string, prefix: string) {
    |prefix| <= |s| && s[..|prefix|] == prefix
  }

  predicate EndsWith(s: string, suffix: string) {
    |suffix| <= |s| && s[|s| - |suffix|..] == suffix
  }

  /** A prefix one longer is the prefix followed by the next element. */
  lemma PrefixExtend<T>(s: seq<T>, i: nat)
    requires i < |s|
    ensures s[..i + 1] == s[..i] + [s[i]]
  {
  }

  // ---------------------------------------------------------------------
  // str.split() and str.join

  /** The input without its leading whitespace. */
  function DropSpaces(s: string): (t: string)
    ensures |t| <= |s|
    ensures t == [] || !IsSpace(t[0])
  {
    if s != [] && IsSpace(s[0]) then DropSpaces(s[1..]) else s
  }

  /** What is left after the leading whitespace is a suffix of the input. */
  lemma {:induction false} DropSpacesIsSuffix(s: string)
    ensures DropSpaces(s) == s[|s| - |DropSpaces(s)|..]
  {
    if s != [] && IsSpace(s[0]) {
      DropSpacesIsSuffix(s[1..]);
    }
  }

  /** Length of the longest prefix without whitespace. */
  function WordLength(s: string): (n: nat)
    ensures n <= |s|
    ensures forall i :: 0 <= i < n ==> !IsSpace(s[i])
    ensures n == |s| || IsSpace(s[n])
  {
    if s == [] || IsSpace(s[0]) then 0 else 1 + WordLength(s[1..])
  }

  /** A token of str.split(): non-empty and free of whitespace. */
  predicate IsToken(w: string) {
    w != [] && forall i :: 0 <= i < |w| ==> !IsSpace(w[i])
  }

  /** Python's str.split() without arguments: the maximal runs of
      non-whitespace characters, in order. */
  function Split(s: string): (words: seq<string>)
    ensures forall k :: 0 <= k < |words| ==> IsToken(words[k])
    decreases |s|
  {
    var t := DropSpaces(s);
    if t == [] then []
    else
      var n := WordLength(t);
      var w := t[..n];
      assert IsToken(w);
      [w] + Split(t[n..])
  }

  /** Every character is a word character or whitespace. */
  predicate WordOrSpace(s: string) {
    forall j :: 0 <= j < |s| ==> IsWordChar(s[j]) || IsSpace(s[j])
  }

  /** Every character is a word character. */
  predicate WordCharsOnly(w: string) {
    forall i :: 0 <= i < |w| ==> IsWordChar(w[i])
  }

  lemma WordOrSpaceSuffix(s: string, m: nat)
    requires WordOrSpace(s) && m <= |s|
    ensures WordOrSpace(s[m..])
  {
    forall j | 0 <= j < |s| - m ensures IsWordChar(s[m..][j]) || IsSpace(s[m..][j]) {
      assert s[m..][j] == s[m + j];
    }
  }

  lemma {:induction false} DropSpacesWordOrSpace(s: string)
    requires WordOrSpace(s)
    ensures WordOrSpace(DropSpaces(s))
  {
    if s != [] && IsSpace(s[0]) {
      WordOrSpaceSuffix(s, 1);
      DropSpacesWordOrSpace(s[1..]);
    }
  }

  /** Tokens of a string made of word characters and whitespace are made of
      word characters only. */
  lemma {:induction false} SplitWordChars(s: string)
    requires WordOrSpace(s)
    ensures forall k :: 0 <= k < |Split(s)| ==> WordCharsOnly(Split(s)[k])
    decreases |s|
  {
    var t := DropSpaces(s);
    if t != [] {
      var n := WordLength(t);
      DropSpacesWordOrSpace(s);
      WordOrSpaceSuffix(t, n);
      SplitWordChars(t[n..]);
      assert WordCharsOnly(t[..n]);
      assert Split(s) == [t[..n]] + Split(t[n..]);
    }
  }


  /** Python's sep.join(parts). */
  function Join(sep: string, parts: seq<string>): (r: string)
  {
    if parts == [] then []
    else if |parts| == 1 then parts[0]
    else parts[0] + sep + Join(sep, parts[1..])
  }

  lemma {:induction false} JoinChars(sep: string, parts: seq<string>, i: nat)
    requires i < |Join(sep, parts)|
    ensures Join(sep, parts)[i] in sep || exists k, j :: 0 <= k < |parts| && 0 <= j < |parts[k]| && parts[k][j] == Join(sep, parts)[i]
  {
    var r := Join(sep, parts);
    if |parts| == 1 {
      assert parts[0][i] == r[i];
    } else {
      var rest := Join(sep, parts[1..]);
      assert r == parts[0] + sep + rest;
      if i < |parts[0]| {
        assert parts[0][i] == r[i];
      } else if i < |parts[0]| + |sep| {
        assert r[i] == sep[i - |parts[0]|];
      } else {
        var i' := i - |parts[0]| - |sep|;
        assert r[i] == rest[i'];
        JoinChars(sep, parts[1..], i');
        if r[i] !in sep {
          var k, j :| 0 <= k < |parts[1..]| && 0 <= j < |parts[1..][k]| && parts[1..][k][j] == rest[i'];
          assert parts[k + 1][j] == r[i];
        }
      }
    }
  }

  lemma {:induction false} SplitAfterSpace(c: char, s: string)
    requires IsSpace(c)
    ensures Split([c] + s) == Split(s)
  {
    assert ([c] + s)[1..] == s;
  }

  lemma {:induction false} WordLengthOfToken(w: string, rest: string)
    requires IsToken(w)
    requires rest == [] || IsSpace(rest[0])
    ensures WordLength(w + rest) == |w|
    decreases |w|
  {
    if |w| > 1 {
      assert (w + rest)[1..] == w[1..] + rest;
      WordLengthOfToken(w[1..], rest);
    } else {
      assert (w + rest)[1..] == rest;
    }
  }

  /** Splitting a token followed by whitespace (or nothing) yields that token first. */
  lemma SplitToken(w: string, rest: string)
    requires IsToken(w)
    requires rest == [] || IsSpace(rest[0])
    ensures Split(w + rest) == [w] + Split(rest)
  {
    WordLengthOfToken(w, rest);
    assert DropSpaces(w + rest) == w + rest;
    assert (w + rest)[..|w|] == w;
    assert (w + rest)[|w|..] == rest;
  }

  /** Joining tokens with single spaces and splitting again gives the tokens
      back: str.split() inverts ' '.join on tokens. */
  lemma {:induction false} SplitJoin(ws: seq<string>)
    requires forall k :: 0 <= k < |ws| ==> IsToken(ws[k])
    ensures Split(Join(" ", ws)) == ws
  {
    if ws == [] {
    } else if |ws| == 1 {
      assert Split(Join(" ", ws)) == ws by {
        assert ws[0] + [] == ws[0];
        SplitToken(ws[0], []);
      }
    } else {
      var w, tail := ws[0], ws[1..];
      var rest := Join(" ", tail);
      var spaced := [' '] + rest;
      assert Join(" ", ws) == w + spaced;
      assert Split(w + spaced) == [w] + Split(spaced) by {
        SplitToken(w, spaced);
      }
      assert Split(spaced) == Split(rest) by {
        SplitAfterSpace(' ', rest);
      }
      assert Split(rest) == tail by {
        SplitJoin(tail);
      }
      assert ws == [w] + tail;
    }
  }

  // ---------------------------------------------------------------------
  // str.replace

  /** Python's s.replace(pat, rep): scans left to right and replaces every
      non-overlapping occurrence of pat. */
  function ReplaceAll(s: string, pat: string, rep: string): (r: string)
    requires pat != []
    decreases |s|
  {
    if |s| < |pat| then s
    else if s[..|pat|] == pat then rep + ReplaceAll(s[|pat|..], pat, rep)
    else [s[0]] + ReplaceAll(s[1..], pat, rep)
  }

  /** Without an occurrence of the pattern, replace leaves the string as it is. */
  lemma {:induction false} ReplaceAbsent(s: string, pat: string, rep: string)
    requires pat != []
    requires !IsSubstring(pat, s)
    ensures ReplaceAll(s, pat, rep) == s
    decreases |s|
  {
    if |s| >= |pat| {
      assert !OccursAt(pat, s, 0);
      if !IsSubstring(pat, s[1..]) {
        ReplaceAbsent(s[1..], pat, rep);
      } else {
        var i :| 0 <= i <= |s[1..]| - |pat| && OccursAt(pat, s[1..], i);
        assert s[i + 1..i + 1 + |pat|] == s[1..][i..i + |pat|];
        assert OccursAt(pat, s, i + 1);
        assert false;
      }
    }
  }

  /** A replacement of equal length keeps the length. */
  lemma {:induction false} ReplaceKeepsLength(s: string, pat: string, rep: string)
    requires pat != [] && |rep| == |pat|
    ensures |ReplaceAll(s, pat, rep)| == |s|
    decreases |s|
  {
    if |s| >= |pat| {
      if s[..|pat|] == pat {
        ReplaceKeepsLength(s[|pat|..], pat, rep);
      } else {
        ReplaceKeepsLength(s[1..], pat, rep);
      }
    }
  }

  /** Either the first m characters of the result are those of s, or a
      replacement shows among them. */
  lemma {:induction false} ReplaceUntouchedPrefix(s: string, pat: string, rep: string, m: nat)
    requires pat != [] && rep != []
    requires m <= |ReplaceAll(s, pat, rep)|
    ensures || (m <= |s| && ReplaceAll(s, pat, rep)[..m] == s[..m])
            || exists i :: 0 <= i < m && ReplaceAll(s, pat, rep)[i] in rep
    decreases |s|
  {
    var r := ReplaceAll(s, pat, rep);
    if |s| < |pat| || m == 0 {
    } else if s[..|pat|] == pat {
      assert r[0] == rep[0];
    } else {
      var tail := ReplaceAll(s[1..], pat, rep);
      assert r == [s[0]] + tail;
      ReplaceUntouchedPrefix(s[1..], pat, rep, m - 1);
      if exists i :: 0 <= i < m - 1 && tail[i] in rep {
        var i :| 0 <= i < m - 1 && tail[i] in rep;
        assert r[i + 1] == tail[i];
      } else {
        assert r[..m] == [s[0]] + tail[..m - 1];
      }
    }
  }


  /** An occurrence of pat cannot start inside rep when pat's characters
      avoid rep, nor inside tail when tail has none. */
  lemma NoOccurrenceAfterReplacement(pat: string, rep: string, tail: string)
    requires pat != []
    requires forall i :: 0 <= i < |pat| ==> pat[i] !in rep
    requires !IsSubstring(pat, tail)
    ensures !IsSubstring(pat, rep + tail)
  {
    var r := rep + tail;
    forall k | 0 <= k <= |r| - |pat| ensures !OccursAt(pat, r, k) {
      if k < |rep| {
        assert r[k] == rep[k] && rep[k] in rep;
        assert r[k..k + |pat|][0] == r[k] != pat[0];
      } else {
        assert r[k..k + |pat|] == tail[k - |rep|..k - |rep| + |pat|];
        assert !OccursAt(pat, tail, k - |rep|);
      }
    }
  }

  /** After a kept first character, no occurrence starts at the front:
      either the next characters are the input's own, which did not match,
      or a character of the replacement shows among them. */
  lemma NoOccurrenceAtKeptChar(s: string, pat: string, rep: string)
    requires pat != [] && rep != [] && |s| >= |pat| && s[..|pat|] != pat
    requires forall i :: 0 <= i < |pat| ==> pat[i] !in rep
    ensures !OccursAt(pat, [s[0]] + ReplaceAll(s[1..], pat, rep), 0)
  {
    var tail := ReplaceAll(s[1..], pat, rep);
    var r := [s[0]] + tail;
    if |pat| <= |r| {
      ReplaceUntouchedPrefix(s[1..], pat, rep, |pat| - 1);
      if !exists i :: 0 <= i < |pat| - 1 && tail[i] in rep {
        assert s[..|pat|] == [s[0]] + s[1..][..|pat| - 1];
        assert r[..|pat|] == [s[0]] + tail[..|pat| - 1];
      } else {
        var i :| 0 <= i < |pat| - 1 && tail[i] in rep;
        assert r[i + 1] == tail[i];
      }
    }
  }

  /** The step of ReplaceRemovesAll where the scan keeps the first character. */
  lemma NoOccurrenceAfterKeptChar(s: string, pat: string, rep: string)
    requires pat != [] && rep != [] && |s| >= |pat| && s[..|pat|] != pat
    requires forall i :: 0 <= i < |pat| ==> pat[i] !in rep
    requires !IsSubstring(pat, ReplaceAll(s[1..], pat, rep))
    ensures !IsSubstring(pat, [s[0]] + ReplaceAll(s[1..], pat, rep))
  {
    var tail := ReplaceAll(s[1..], pat, rep);
    var r := [s[0]] + tail;
    forall k | 0 <= k <= |r| - |pat| ensures !OccursAt(pat, r, k) {
      if k == 0 {
        NoOccurrenceAtKeptChar(s, pat, rep);
      } else {
        assert r[k..k + |pat|] == tail[k - 1..k - 1 + |pat|];
        assert !OccursAt(pat, tail, k - 1);
      }
    }
  }

  /** An occurrence in the tail of s is an occurrence in s, one further on. */
  lemma OccursInTail(pat: string, s: string, i: nat)
    requires s != [] && OccursAt(pat, s[1..], i)
    ensures OccursAt(pat, s, i + 1)
  {
    assert s[i + 1..i + 1 + |pat|] == s[1..][i..i + |pat|];
  }

  /** A prefix in which no occurrence of the pattern starts is copied as it
      is; replacing starts after it. */
  lemma {:induction false} ReplaceKeepsPrefix(a: string, b: string, pat: string, rep: string)
    requires pat != []
    requires forall i :: 0 <= i < |a| ==> !OccursAt(pat, a + b, i)
    ensures ReplaceAll(a + b, pat, rep) == a + ReplaceAll(b, pat, rep)
    decreases |a|
  {
    var s := a + b;
    if a == [] {
      assert s == b;
    } else if |s| >= |pat| {
      assert s[..|pat|] != pat by {
        assert !OccursAt(pat, s, 0);
        assert s[0..|pat|] == s[..|pat|];
      }
      assert ReplaceAll(s, pat, rep) == [a[0]] + ReplaceAll(s[1..], pat, rep);
      assert s[1..] == a[1..] + b;
      forall i | 0 <= i < |a[1..]|
        ensures !OccursAt(pat, a[1..] + b, i)
      {
        if OccursAt(pat, s[1..], i) {
          OccursInTail(pat, s, i);
        }
      }
      ReplaceKeepsPrefix(a[1..], b, pat, rep);
      assert [a[0]] + (a[1..] + ReplaceAll(b, pat, rep)) == a + ReplaceAll(b, pat, rep);
    } else {
      assert ReplaceAll(s, pat, rep) == s;
      assert ReplaceAll(b, pat, rep) == b;
    }
  }

  /** When the replacement shares no character with the pattern, the result
      contains no occurrence of the pattern: every occurrence was replaced. */
  lemma {:induction false} ReplaceRemovesAll(s: string, pat: string, rep: string)
    requires pat != [] && rep != []
    requires forall i :: 0 <= i < |pat| ==> pat[i] !in rep
    ensures !IsSubstring(pat, ReplaceAll(s, pat, rep))
    decreases |s|
  {
    if |s| < |pat| {
    } else if s[..|pat|] == pat {
      ReplaceRemovesAll(s[|pat|..], pat, rep);
      NoOccurrenceAfterReplacement(pat, rep, ReplaceAll(s[|pat|..], pat, rep));
    } else {
      ReplaceRemovesAll(s[1..], pat, rep);
      NoOccurrenceAfterKeptChar(s, pat, rep);
    }
  }

  /** Replacing a single character distributes over concatenation. */
  lemma {:induction false} ReplaceCharConcat(a: string, b: string, c: char, rep: string)
    ensures ReplaceAll(a + b, [c], rep) == ReplaceAll(a, [c], rep) + ReplaceAll(b, [c], rep)
    decreases |a|
  {
    if a == [] {
      assert a + b == b;
    } else {
      assert (a + b)[..1] == a[..1];
      assert (a + b)[1..] == a[1..] + b;
      ReplaceCharConcat(a[1..], b, c, rep);
    }
  }

  /** Replacing a single character acts on one character at a time. */
  lemma ReplaceCharSingle(x: char, c: char, rep: string)
    ensures ReplaceAll([x], [c], rep) == if x == c then rep else [x]
  {
    assert [x][..1] == [x];
    assert [x][1..] == [];
  }

  // ---------------------------------------------------------------------
  // str.split(sep) for a one-character separator

  /** Python's s.split(sep): the pieces between separators, empty pieces
      included; a string without separator is one piece. */
  function SplitOn(sep: char, s: string): (parts: seq<string>)
    ensures |parts| >= 1
    decreases |s|
  {
    if s == [] then [[]]
    else
      var rest := SplitOn(sep, s[1..]);
      if s[0] == sep then [[]] + rest else [[s[0]] + rest[0]] + rest[1..]
  }

  lemma {:induction false} SplitOnNoSeparator(sep: char, a: string)
    requires sep !in a
    ensures SplitOn(sep, a) == [a]
    decreases |a|
  {
    if a != [] {
      SplitOnNoSeparator(sep, a[1..]);
      assert [a[0]] + a[1..] == a;
    }
  }

  /** Splitting stops at the first separator. */
  lemma {:induction false} SplitOnFirstSeparator(sep: char, a: string, b: string)
    requires sep !in a
    ensures SplitOn(sep, a + [sep] + b) == [a] + SplitOn(sep, b)
    decreases |a|
  {
    var s := a + [sep] + b;
    if a == [] {
      assert s[1..] == b;
    } else {
      assert s[1..] == a[1..] + [sep] + b;
      SplitOnFirstSeparator(sep, a[1..], b);
      assert [a[0]] + a[1..] == a;
    }
  }

  /** Splitting the join of separator-free pieces gives the pieces back. */
  lemma {:induction false} SplitOnJoin(sep: char, parts: seq<string>)
    requires parts != []
    requires forall k :: 0 <= k < |parts| ==> sep !in parts[k]
    ensures SplitOn(sep, Join([sep], parts)) == parts
  {
    if |parts| == 1 {
      SplitOnNoSeparator(sep, parts[0]);
    } else {
      SplitOnJoin(sep, parts[1..]);
      SplitOnFirstSeparator(sep, parts[0], Join([sep], parts[1..]));
      assert [parts[0]] + parts[1..] == parts;
    }
  }

  // ---------------------------------------------------------------------
  // Decimal rendering of counts (f"{n}")

  function DigitChar(d: nat): (c: char)
    requires d < 10
    ensures IsDigit(c)
  {
    ('0' as int + d) as char
  }

  function NatToString(n: nat): (s: string)
    ensures s != []
    ensures forall i :: 0 <= i < |s| ==> IsDigit(s[i])
  {
    if n < 10 then [DigitChar(n)] else NatToString(n / 10) + [DigitChar(n % 10)]
  }
}
