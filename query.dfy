/**
 * Construction of the preprint search query in search_arxiv: the title is
 * cleaned of punctuation and cut to its first eight words, the first run
 * of ASCII letters in the authors string is taken as the first author's
 * surname, and the two are combined into a `ti:"..."` phrase with an
 * optional ` AND au:...` clause.
 */
module Query {
  import opened Text
  import opened Records

  /** How many title words go into the phrase search. */
  const MaxSearchTerms: nat := 8

  const ArxivApiUrl: string := "https://export.arxiv.org/api/query"

  /** How many candidates each request asks for. */
  const MaxResults: nat := 5

  /** re.sub(r'[^\w\s]', ' ', title): every character that is neither a
      word character nor whitespace becomes a space; the length is kept. */
  function CleanTitle(title: string): (clean: string)
    ensures |clean| == |title|
    ensures forall i :: 0 <= i < |clean| ==> IsWordChar(clean[i]) || IsSpace(clean[i])
    ensures forall i :: 0 <= i < |title| && (IsWordChar(title[i]) || IsSpace(title[i])) ==> clean[i] == title[i]
    ensures forall i :: 0 <= i < |title| && !IsWordChar(title[i]) && !IsSpace(title[i]) ==> clean[i] == ' '
  {
    seq(|title|, i requires 0 <= i < |title| =>
      if IsWordChar(title[i]) || IsSpace(title[i]) then title[i] else ' ')
  }

  function Min(a: nat, b: nat): nat {
    if a <= b then a else b
  }

  /** ' '.join(clean_title.split()[:8]). */
  function SearchTerms(title: string): string
  {
    var words := Split(CleanTitle(title));
    Join(" ", words[..Min(MaxSearchTerms, |words|)])
  }

  /** The phrase holds the first eight words of the cleaned title, each
      made of word characters only. */
  lemma {:induction false} SearchTermsAreLeadingWords(title: string)
    ensures var words := Split(CleanTitle(title));
      Split(SearchTerms(title)) == words[..Min(MaxSearchTerms, |words|)]
    ensures |Split(SearchTerms(title))| <= MaxSearchTerms
    ensures forall k :: 0 <= k < |Split(SearchTerms(title))| ==> WordCharsOnly(Split(SearchTerms(title))[k])
  {
    var words := Split(CleanTitle(title));
    var kept := words[..Min(MaxSearchTerms, |words|)];
    SplitWordChars(CleanTitle(title));
    assert forall k :: 0 <= k < |kept| ==> IsToken(kept[k]) && kept[k] == words[k];
    SplitJoin(kept);
  }

  /** The phrase holds nothing but word characters and spaces. */
  lemma SearchTermsCharset(title: string)
    ensures forall i :: 0 <= i < |SearchTerms(title)| ==> IsWordChar(SearchTerms(title)[i]) || SearchTerms(title)[i] == ' '
  {
    var words := Split(CleanTitle(title));
    var kept := words[..Min(MaxSearchTerms, |words|)];
    SplitWordChars(CleanTitle(title));
    var terms := SearchTerms(title);
    forall i | 0 <= i < |terms| ensures IsWordChar(terms[i]) || terms[i] == ' ' {
      JoinChars(" ", kept, i);
      if terms[i] !in " " {
        var k, j :| 0 <= k < |kept| && 0 <= j < |kept[k]| && kept[k][j] == terms[i];
        assert words[k][j] == terms[i];
      }
    }
  }

  /** Position of the first ASCII letter, |s| when there is none. */
  function FirstLetterIndex(s: string): (i: nat)
    ensures i <= |s|
    ensures forall j :: 0 <= j < i ==> !IsAsciiLetter(s[j])
    ensures i < |s| ==> IsAsciiLetter(s[i])
  {
    if s == [] || IsAsciiLetter(s[0]) then 0 else 1 + FirstLetterIndex(s[1..])
  }

  /** Length of the run of ASCII letters that starts the string. */
  function LetterRunLength(s: string): (n: nat)
    ensures n <= |s|
    ensures forall j :: 0 <= j < n ==> IsAsciiLetter(s[j])
    ensures n == |s| || !IsAsciiLetter(s[n])
  {
    if s == [] || !IsAsciiLetter(s[0]) then 0 else 1 + LetterRunLength(s[1..])
  }

  predicate HasLetter(s: string) {
    exists j :: 0 <= j < |s| && IsAsciiLetter(s[j])
  }

  /** The group of re.search(r'([A-Za-z]+)', authors), or "" when the search
      finds nothing: the leftmost, longest run of ASCII letters. */
  function FirstAuthorSurname(authors: string): (name: string)
    ensures name == [] <==> !HasLetter(authors)
    ensures forall j :: 0 <= j < |name| ==> IsAsciiLetter(name[j])
    ensures name != [] ==>
      var i := FirstLetterIndex(authors);
      && i + |name| <= |authors|
      && authors[i..i + |name|] == name
      && (i + |name| == |authors| || !IsAsciiLetter(authors[i + |name|]))
  {
    var i := FirstLetterIndex(authors);
    var rest := authors[i..];
    rest[..LetterRunLength(rest)]
  }

  /** The title clause of the query: ti:"<terms>". */
  function TitleClause(title: string): string {
    "ti:\"" + SearchTerms(title) + "\""
  }

  /** The search_query parameter. */
  function BuildQuery(title: string, authors: string): (q: string)
    ensures HasLetter(authors) ==> q == TitleClause(title) + " AND au:" + FirstAuthorSurname(authors)
    ensures !HasLetter(authors) ==> q == TitleClause(title)
  {
    var surname := FirstAuthorSurname(authors);
    TitleClause(title) + (if surname != [] then " AND au:" + surname else "")
  }

  /** Quotes around a phrase without quotes are its only quotes. */
  lemma QuotedPhrase(terms: string)
    requires forall i :: 0 <= i < |terms| ==> terms[i] != '"'
    ensures var p := "ti:\"" + terms + "\"";
      forall i :: 0 <= i < |p| ==> (p[i] == '"' <==> i == 3 || i == 4 + |terms|)
  {
    var p := "ti:\"" + terms + "\"";
    forall i | 0 <= i < |p| ensures p[i] == '"' <==> i == 3 || i == 4 + |terms| {
      if 4 <= i < 4 + |terms| {
        assert p[i] == terms[i - 4];
      }
    }
  }

  lemma SearchTermsHaveNoQuote(title: string)
    ensures forall i :: 0 <= i < |SearchTerms(title)| ==> SearchTerms(title)[i] != '"'
  {
    SearchTermsCharset(title);
  }

  lemma AuthorClauseHasNoQuote(surname: string)
    requires forall j :: 0 <= j < |surname| ==> IsAsciiLetter(surname[j])
    ensures forall j :: 0 <= j < |" AND au:" + surname| ==> (" AND au:" + surname)[j] != '"'
  {
    var tail := " AND au:" + surname;
    forall j | 0 <= j < |tail| ensures tail[j] != '"' {
      if j >= 8 {
        assert tail[j] == surname[j - 8];
      }
    }
  }

  /** The phrase is quoted exactly once: the only double quotes of the query
      are the two around the search terms. */
  lemma QueryQuotesOnlyThePhrase(title: string, authors: string)
    ensures var q, terms := BuildQuery(title, authors), SearchTerms(title);
      forall i :: 0 <= i < |q| ==> (q[i] == '"' <==> i == 3 || i == 4 + |terms|)
  {
    var q, terms := BuildQuery(title, authors), SearchTerms(title);
    var surname := FirstAuthorSurname(authors);
    SearchTermsHaveNoQuote(title);
    QuotedPhrase(terms);
    var phrase := TitleClause(title);
    var tail := if surname != [] then " AND au:" + surname else "";
    if surname != [] {
      AuthorClauseHasNoQuote(surname);
    }
    assert q == phrase + tail;
    forall i | 0 <= i < |q| ensures q[i] == '"' <==> i == 3 || i == 4 + |terms| {
      if i >= |phrase| {
        assert q[i] == tail[i - |phrase|];
      } else {
        assert q[i] == phrase[i];
      }
    }
  }

  /** The request search_arxiv sends for a paper. */
  function SearchRequestFor(paper: Paper): (r: SearchRequest)
    ensures r.baseUrl == ArxivApiUrl
    ensures r.searchQuery == BuildQuery(paper.title, paper.authors)
    ensures r.start == 0 && r.maxResults == MaxResults
  {
    SearchRequest(ArxivApiUrl, BuildQuery(paper.title, paper.authors), 0, MaxResults)
  }

  /** The surname of an authors string that starts with an initial is
      that initial. */
  lemma SurnameExample()
    ensures FirstAuthorSurname("J. Smith, A. Lee") == "J"
  {
    var a := "J. Smith, A. Lee";
    assert IsAsciiLetter(a[0]);
    assert FirstLetterIndex(a) == 0;
    assert a[0..] == a;
    assert a[1..][0] == '.';
    assert LetterRunLength(a[1..]) == 0;
    assert LetterRunLength(a) == 1;
  }
}
