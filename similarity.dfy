/**
 * are_titles_similar: both titles are lower-cased, stripped of every
 * character that is neither a word character nor whitespace, and split into
 * word sets; they are similar when the common words make up more than half
 * of the larger set. The ratio is kept in integers: |common| / max > 0.5
 * iff 2 * |common| > max. When both sets are empty the source divides by
 * zero; here that case is "not similar".
 */
module Similarity {
  import opened Text
  import opened Records

  /** re.sub(r'[^\w\s]', '', s): deletes every character that is neither a
      word character nor whitespace, keeping the others in order. */
  function DeleteNonWord(s: string): (r: string)
    ensures |r| <= |s|
    ensures forall i :: 0 <= i < |r| ==> IsWordChar(r[i]) || IsSpace(r[i])
  {
    if s == [] then []
    else (if IsWordChar(s[0]) || IsSpace(s[0]) then [s[0]] else []) + DeleteNonWord(s[1..])
  }

  /** A string of word characters and whitespace is left as it is. */
  lemma {:induction false} DeleteNonWordKeepsClean(s: string)
    requires forall i :: 0 <= i < |s| ==> IsWordChar(s[i]) || IsSpace(s[i])
    ensures DeleteNonWord(s) == s
  {
    if s != [] {
      DeleteNonWordKeepsClean(s[1..]);
      assert [s[0]] + s[1..] == s;
    }
  }

  /** The deletion works character by character: it distributes over
      concatenation. */
  lemma {:induction false} DeleteNonWordConcat(a: string, b: string)
    ensures DeleteNonWord(a + b) == DeleteNonWord(a) + DeleteNonWord(b)
  {
    if a == [] {
      assert a + b == b;
    } else {
      assert (a + b)[0] == a[0] && (a + b)[1..] == a[1..] + b;
      DeleteNonWordConcat(a[1..], b);
    }
  }

  /** Every word or whitespace character survives the deletion: it occurs
      as often in the result as in the input. */
  lemma {:induction false} DeleteNonWordKeepsRest(s: string, c: char)
    requires IsWordChar(c) || IsSpace(c)
    ensures multiset(DeleteNonWord(s))[c] == multiset(s)[c]
  {
    if s != [] {
      DeleteNonWordKeepsRest(s[1..], c);
      assert s == [s[0]] + s[1..];
    }
  }

  /** The normalised title: lower-cased, punctuation deleted. */
  function Normalise(title: string): string {
    DeleteNonWord(Lower(title))
  }

  /** The distinct elements of a sequence, as Python's set(...) builds them. */
  function SetOf(ws: seq<string>): set<string> {
    if ws == [] then {} else {ws[0]} + SetOf(ws[1..])
  }

  /** set(...) keeps exactly the elements of the sequence. */
  lemma {:induction false} SetOfMembers(ws: seq<string>, w: string)
    ensures w in SetOf(ws) <==> w in ws
  {
    if ws != [] {
      SetOfMembers(ws[1..], w);
      assert ws == [ws[0]] + ws[1..];
    }
  }

  /** set(t.split()) of the normalised title. */
  function WordSet(title: string): set<string> {
    SetOf(Split(Normalise(title)))
  }

  function Max(a: nat, b: nat): nat {
    if a >= b then a else b
  }

  /** are_titles_similar, with the empty case guarded. */
  predicate Similar(title1: string, title2: string) {
    var w1, w2 := WordSet(title1), WordSet(title2);
    var m := Max(|w1|, |w2|);
    m > 0 && 2 * |w1 * w2| > m
  }

  /** are_titles_similar as written: None where it divides by zero, which
      happens exactly when neither title has a word; otherwise the guarded
      test's verdict. */
  function SimilarAsWritten(title1: string, title2: string): (r: Option<bool>)
    ensures r.None? <==> WordSet(title1) == {} && WordSet(title2) == {}
    ensures r.Some? ==> r.value == Similar(title1, title2)
  {
    var w1, w2 := WordSet(title1), WordSet(title2);
    var m := Max(|w1|, |w2|);
    if m == 0 then None else Some(2 * |w1 * w2| > m)
  }

  lemma ProductPositive(x: real, y: real)
    requires x > 0.0 && y > 0.0
    ensures x * y > 0.0
  {
  }

  lemma ProductNonNegative(x: real, y: real)
    requires x >= 0.0 && y > 0.0
    ensures x * y >= 0.0
  {
  }

  /** For a positive denominator, c / m > 0.5 exactly when 2 * c > m. */
  lemma RatioAboveHalf(common: nat, m: nat)
    requires m > 0
    ensures 2 * common > m <==> (common as real) / (m as real) > 0.5
  {
    var c, mr := common as real, m as real;
    var ratio := c / mr;
    assert c == ratio * mr;
    if ratio > 0.5 {
      ProductPositive(ratio - 0.5, mr);
      assert c - 0.5 * mr == (ratio - 0.5) * mr;
    } else {
      ProductNonNegative(0.5 - ratio, mr);
      assert 0.5 * mr - c == (0.5 - ratio) * mr;
    }
  }

  /** The integer test agrees with the source's ratio test
      len(common) / max(len(w1), len(w2)) > 0.5 wherever the ratio is
      defined, and is false where it is not. */
  lemma SimilarIsRatioAboveHalf(title1: string, title2: string)
    ensures var w1, w2 := WordSet(title1), WordSet(title2);
      var common, m := |w1 * w2|, Max(|w1|, |w2|);
      Similar(title1, title2) <==> m > 0 && (common as real) / (m as real) > 0.5
  {
    var w1, w2 := WordSet(title1), WordSet(title2);
    var m := Max(|w1|, |w2|);
    if m > 0 {
      RatioAboveHalf(|w1 * w2|, m);
    }
  }

  lemma SimilarIsSymmetric(title1: string, title2: string)
    ensures Similar(title1, title2) == Similar(title2, title1)
  {
    assert WordSet(title1) * WordSet(title2) == WordSet(title2) * WordSet(title1);
  }

  /** A title with at least one word is similar to itself. */
  lemma SimilarIsReflexive(title: string)
    requires WordSet(title) != {}
    ensures Similar(title, title)
  {
    var w := WordSet(title);
    assert w * w == w;
  }

  /** A title without words is similar to nothing, on either side. */
  lemma NoWordsNeverSimilar(title: string, other: string)
    requires WordSet(title) == {}
    ensures !Similar(title, other) && !Similar(other, title)
  {
    assert WordSet(title) * WordSet(other) == {};
    assert WordSet(other) * WordSet(title) == {};
  }

  /** Similar titles share at least one word. */
  lemma SimilarSharesAWord(title1: string, title2: string)
    requires Similar(title1, title2)
    ensures exists w :: w in WordSet(title1) && w in WordSet(title2)
  {
    var common := WordSet(title1) * WordSet(title2);
    assert common != {};
    var w :| w in common;
  }
}
