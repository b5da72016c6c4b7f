/**
 * The keyword filter of paper_fetcher.py: a paper survives when some
 * lower-cased keyword occurs in its lower-cased title, a space, and its
 * lower-cased authors. No keywords (None or an empty list) keeps every paper.
 */
module KeywordFilter {
  import opened Text
  import opened Records

  /** The text the keywords are searched in. */
  function SearchText(p: Paper): string {
    Lower(p.title) + " " + Lower(p.authors)
  }

  /** Some keyword, lower-cased, is a substring of the search text. */
  predicate MatchesAny(p: Paper, keywords: seq<string>) {
    exists k :: k in keywords && IsSubstring(Lower(k), SearchText(p))
  }

  /** The matching papers of `papers`, in order. */
  function Select(papers: seq<Paper>, keywords: seq<string>): seq<Paper>
  {
    if papers == [] then []
    else
      var last := papers[|papers| - 1];
      Select(papers[..|papers| - 1], keywords) + (if MatchesAny(last, keywords) then [last] else [])
  }

  /** What the filter returns: the input itself without keywords, the
      matching papers otherwise. */
  function Filtered(papers: seq<Paper>, keywords: seq<string>): seq<Paper>
  {
    if keywords == [] then papers else Select(papers, keywords)
  }

  /** The positions of the matching papers, in increasing order. */
  function KeptIndices(papers: seq<Paper>, keywords: seq<string>): seq<nat>
  {
    if papers == [] then []
    else
      var n := |papers| - 1;
      KeptIndices(papers[..n], keywords) + (if MatchesAny(papers[n], keywords) then [n] else [])
  }

  /** The filter loop: appends each matching paper to the result. */
  method FilterPapersByKeywords(papers: seq<Paper>, keywords: seq<string>) returns (kept: seq<Paper>)
    ensures kept == Filtered(papers, keywords)
    ensures keywords == [] ==> kept == papers
    ensures |kept| <= |papers|
  {
    if keywords == [] {
      return papers;
    }
    kept := [];
    var i := 0;
    while i < |papers|
      invariant 0 <= i <= |papers|
      invariant kept == Select(papers[..i], keywords)
      invariant |kept| <= i
    {
      var paper := papers[i];
      var searchText := Lower(paper.title) + " " + Lower(paper.authors);
      if exists k :: k in keywords && IsSubstring(Lower(k), searchText) {
        kept := kept + [paper];
      }
      assert papers[..i + 1][..i] == papers[..i];
      i := i + 1;
    }
    assert papers[..|papers|] == papers;
  }

  /** The kept papers are exactly the matching papers, in input order:
      kept[j] is papers[idx[j]] for strictly increasing positions idx, and a
      position is among them iff its paper matches. */
  lemma {:induction false} SelectIsOrderedMatches(papers: seq<Paper>, keywords: seq<string>)
    ensures var kept, idx := Select(papers, keywords), KeptIndices(papers, keywords);
      && |idx| == |kept|
      && (forall j :: 0 <= j < |idx| ==> idx[j] < |papers| && papers[idx[j]] == kept[j])
      && (forall j1, j2 :: 0 <= j1 < j2 < |idx| ==> idx[j1] < idx[j2])
      && (forall i :: 0 <= i < |papers| ==> (MatchesAny(papers[i], keywords) <==> i in idx))
  {
    if papers != [] {
      var n := |papers| - 1;
      var init := papers[..n];
      SelectIsOrderedMatches(init, keywords);
      var kept0, idx0 := Select(init, keywords), KeptIndices(init, keywords);
      var kept, idx := Select(papers, keywords), KeptIndices(papers, keywords);
      assert forall j :: 0 <= j < |idx0| ==> idx0[j] < n;
      if MatchesAny(papers[n], keywords) {
        assert kept == kept0 + [papers[n]] && idx == idx0 + [n];
      } else {
        assert kept == kept0 && idx == idx0;
      }
      forall i | 0 <= i < |papers| ensures MatchesAny(papers[i], keywords) <==> i in idx {
        if i < n {
          assert papers[i] == init[i];
        }
      }
    }
  }

  /** Membership form of the filter's meaning. */
  lemma FilteredMembership(papers: seq<Paper>, keywords: seq<string>, p: Paper)
    requires keywords != []
    ensures p in Filtered(papers, keywords) <==> p in papers && MatchesAny(p, keywords)
  {
    SelectIsOrderedMatches(papers, keywords);
    var kept, idx := Select(papers, keywords), KeptIndices(papers, keywords);
    if p in kept {
      var j :| 0 <= j < |kept| && kept[j] == p;
      assert papers[idx[j]] == p;
      assert idx[j] in idx;
    }
    if p in papers && MatchesAny(p, keywords) {
      var i :| 0 <= i < |papers| && papers[i] == p;
      assert i in idx;
      var j :| 0 <= j < |idx| && idx[j] == i;
      assert kept[j] == p;
    }
  }

  /** Matching ignores case: lower-casing the keywords, the title or the
      authors beforehand changes nothing. */
  lemma {:induction false} MatchingIgnoresCase(p: Paper, keywords: seq<string>)
    ensures MatchesAny(p, keywords) == MatchesAny(p, LowerAll(keywords))
    ensures MatchesAny(p, keywords) == MatchesAny(Paper(Lower(p.title), Lower(p.authors), p.abstractText), keywords)
  {
    var q := Paper(Lower(p.title), Lower(p.authors), p.abstractText);
    LowerIdempotent(p.title);
    LowerIdempotent(p.authors);
    assert SearchText(q) == SearchText(p);
    forall k | k in keywords ensures Lower(k) == Lower(Lower(k)) {
      LowerIdempotent(k);
    }
    if MatchesAny(p, keywords) {
      var k :| k in keywords && IsSubstring(Lower(k), SearchText(p));
      var j :| 0 <= j < |keywords| && keywords[j] == k;
      assert LowerAll(keywords)[j] == Lower(k);
    }
    if MatchesAny(p, LowerAll(keywords)) {
      var k :| k in LowerAll(keywords) && IsSubstring(Lower(k), SearchText(p));
      var j :| 0 <= j < |keywords| && LowerAll(keywords)[j] == k;
      assert Lower(keywords[j]) == Lower(k);
    }
  }

  function LowerAll(keywords: seq<string>): (r: seq<string>)
    ensures |r| == |keywords|
    ensures forall j :: 0 <= j < |keywords| ==> r[j] == Lower(keywords[j])
  {
    seq(|keywords|, j requires 0 <= j < |keywords| => Lower(keywords[j]))
  }

  /** A keyword occurring in the lower-cased title selects the paper. */
  lemma MatchInTitle(p: Paper, keywords: seq<string>, k: string, i: nat)
    requires k in keywords
    requires OccursAt(Lower(k), Lower(p.title), i)
    ensures MatchesAny(p, keywords)
  {
    var text := SearchText(p);
    assert text[i..i + |k|] == Lower(p.title)[i..i + |k|];
    assert OccursAt(Lower(k), text, i);
  }

  /** A keyword matches a title holding a word that lower-cases like it. */
  lemma MatchWordInTitle(p: Paper, keywords: seq<string>, k: string, pre: string, word: string, post: string)
    requires k in keywords && p.title == pre + word + post && Lower(k) == Lower(word)
    ensures MatchesAny(p, keywords)
  {
    var i, j := |pre|, |pre| + |word|;
    assert p.title[i..j] == word;
    LowerSlice(p.title, i, j);
    MatchInTitle(p, keywords, k, i);
  }

  /** A capitalised keyword finds the lower-case word in a title. */
  lemma CapitalisedKeywordMatches()
    ensures MatchesAny(Paper("Learning diffusion priors", "J. Smith", None), ["Diffusion"])
  {
    var p := Paper("Learning diffusion priors", "J. Smith", None);
    assert Lower("Diffusion") == "diffusion" == Lower("diffusion");
    MatchWordInTitle(p, ["Diffusion"], "Diffusion", "Learning ", "diffusion", " priors");
  }
}
