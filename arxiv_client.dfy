/**
  The arXiv adapter: query preparation, text cleaning, year extraction, and the normalisation of
  the entries of an Atom 1.0 feed (RFC 4287) into `ArxivPaper` records.

  The XML parser is an input: a feed is either malformed (ElementTree raised a ParseError) or the
  sequence of its `atom:entry` elements (section 4.1.2 of RFC 4287), each reduced to the child
  elements the adapter reads.
 */
module ArxivClient {
  import opened Wrappers
  import opened Text
  import opened Seqs
  import opened Http

  // ---------------------------------------------------------------- query

  /** The characters `_prepare_query` keeps: `\w`, `-` and `.`; every other non-whitespace becomes a space. */
  predicate QueryChar(c: char) {
    IsWordChar(c) || c == '-' || c == '.'
  }

  /** `re.sub(r"[^\w\s\-\.]", " ", query)`. */
  function Sanitize(query: string): (r: string)
    ensures |r| == |query|
    ensures forall i :: 0 <= i < |r| ==> QueryChar(r[i]) || IsSpace(r[i])
  {
    seq(|query|, i requires 0 <= i < |query| => if QueryChar(query[i]) || IsSpace(query[i]) then query[i] else ' ')
  }

  /** The words of at least three characters, in order. */
  function LongWords(words: seq<string>): seq<string> {
    FilterMap(words, (w: string) => if |w| > 2 then Some(w) else None)
  }

  /** At most the first ten words of the sanitised query. */
  function FirstWords(query: string): seq<string> {
    var words := Words(Sanitize(query));
    if |words| <= 10 then words else words[..10]
  }

  /** The search terms: the long words among the first ten. */
  function QueryTerms(query: string): seq<string> {
    LongWords(FirstWords(query))
  }

  const FallbackQuery := "all:machine learning"

  /** The `search_query` parameter sent for a query. */
  function PreparedQuery(query: string): string {
    var terms := QueryTerms(query);
    if terms == [] then FallbackQuery else "all:" + Join(terms, " AND ")
  }

  /** `_prepare_query`. */
  method PrepareQuery(query: string) returns (r: string)
    ensures r == PreparedQuery(query)
  {
    var cleanQuery := Sanitize(query);
    var words := Words(cleanQuery);
    if words == [] {
      assert LongWords([]) == [];
      return FallbackQuery;
    }
    var first := if |words| <= 10 then words else words[..10];
    var searchTerms: seq<string> := [];
    var i := 0;
    while i < |first|
      invariant 0 <= i <= |first|
      invariant searchTerms == LongWords(first[..i])
    {
      FilterMapSnoc(first, (w: string) => if |w| > 2 then Some(w) else None, i);
      if |first[i]| > 2 {
        searchTerms := searchTerms + [first[i]];
      }
      i := i + 1;
    }
    assert first[..i] == first;
    if searchTerms == [] {
      return FallbackQuery;
    }
    r := "all:" + Join(searchTerms, " AND ");
  }

  /** Every character is a query character or whitespace: what `Sanitize` leaves. */
  predicate QueryOrSpace(s: string) {
    forall i :: 0 <= i < |s| ==> QueryChar(s[i]) || IsSpace(s[i])
  }

  predicate AllQueryChars(w: string) {
    forall i :: 0 <= i < |w| ==> QueryChar(w[i])
  }

  lemma QueryOrSpaceSlice(s: string, lo: nat, hi: nat)
    requires QueryOrSpace(s) && lo <= hi <= |s|
    ensures QueryOrSpace(s[lo..hi])
  {
    assert forall i :: 0 <= i < hi - lo ==> s[lo..hi][i] == s[lo + i];
  }

  /** Every word `split()` yields from such a text is made of query characters. */
  lemma {:induction false} WordsOfQueryChars(s: string)
    requires QueryOrSpace(s)
    ensures forall k :: 0 <= k < |Words(s)| ==> AllQueryChars(Words(s)[k])
    decreases |s|
  {
    var t := TrimStart(s);
    if t != [] {
      QueryOrSpaceSlice(s, LeadingSpaces(s), |s|);
      var n := WordLength(t);
      var rest := t[n..];
      QueryOrSpaceSlice(t, n, |t|);
      WordsOfQueryChars(rest);
      var ws := Words(s);
      assert ws == [t[..n]] + Words(rest);
      assert AllQueryChars(t[..n]) by {
        forall i | 0 <= i < n ensures QueryChar(t[..n][i]) {
          assert t[..n][i] == t[i] && !IsSpace(t[i]);
        }
      }
      forall k | 0 <= k < |ws| ensures AllQueryChars(ws[k]) {
        if k > 0 {
          assert ws[k] == Words(rest)[k - 1];
        }
      }
    }
  }

  /**
    The terms are, in order, the words longer than two characters among the first ten words of
    the sanitised query, and each consists of word characters, `-` and `.` only.
   */
  lemma QueryTermsShape(query: string)
    ensures var terms := QueryTerms(query);
      forall k :: 0 <= k < |terms| ==> |terms[k]| > 2 && AllQueryChars(terms[k])
    ensures forall w :: w in QueryTerms(query) <==> w in FirstWords(query) && |w| > 2
    ensures |FirstWords(query)| <= 10
  {
    var f := (w: string) => if |w| > 2 then Some(w) else None;
    var first := FirstWords(query);
    var terms := QueryTerms(query);
    WordsOfQueryChars(Sanitize(query));
    forall w ensures w in terms <==> w in first && |w| > 2 {
      FilterMapExactly(first, f, w);
    }
    forall k | 0 <= k < |terms| ensures |terms[k]| > 2 && AllQueryChars(terms[k]) {
      var w := terms[k];
      FilterMapExactly(first, f, w);
      var j :| 0 <= j < |first| && f(first[j]) == Some(w);
      assert first[j] == Words(Sanitize(query))[j];
    }
  }

  /** A query without a usable word gets the fallback; otherwise the terms are AND-joined in the `all:` field. */
  lemma PreparedQueryShape(query: string)
    ensures QueryTerms(query) == [] ==> PreparedQuery(query) == "all:machine learning"
    ensures QueryTerms(query) != [] ==> PreparedQuery(query) == "all:" + Join(QueryTerms(query), " AND ")
    ensures Words(Sanitize(query)) == [] ==> PreparedQuery(query) == "all:machine learning"
  {
  }

  // ---------------------------------------------------------------- text and dates

  /**
    `_clean_text`: None and `""` give `""`; any other text is stripped and every whitespace run
    becomes one space, which leaves its words joined by single spaces.
   */
  function CleanText(text: Option<string>): (r: string)
    ensures r == SingleSpaced(text.GetOr(""))
    ensures NoDoubleSpace(r)
    ensures r == [] || (!IsSpace(r[0]) && !IsSpace(r[|r| - 1]))
  {
    match text
    case None => ""
    case Some(t) =>
      if t == [] then ""
      else
        CollapseOfStrip(t);
        Collapse(Strip(t))
  }

  /** The value of an ASCII digit. */
  function DigitValue(c: char): int
    requires IsDigit(c)
  {
    c as int - '0' as int
  }

  /** The value of four ASCII digits. */
  function FourDigitValue(s: string): (r: int)
    requires |s| == 4 && AllDigits(s)
    ensures 0 <= r <= 9999
  {
    1000 * DigitValue(s[0]) + 100 * DigitValue(s[1]) + 10 * DigitValue(s[2]) + DigitValue(s[3])
  }

  /** The year used when a date gives none. */
  const DefaultYear := 2024

  /** `re.match(r"(\d{4})", s)` succeeds: the text starts with four digits. */
  predicate StartsWithYear(s: string) {
    |s| >= 4 && AllDigits(s[..4])
  }

  /** `_extract_year`: the leading four digits as a number, or 2024. */
  function ExtractYear(date: string): (year: int)
    ensures StartsWithYear(date) ==> year == FourDigitValue(date[..4])
    ensures !StartsWithYear(date) ==> year == DefaultYear
    ensures 0 <= year <= 9999
  {
    if date == [] then DefaultYear
    else if StartsWithYear(date) then FourDigitValue(date[..4])
    else DefaultYear
  }

  function Digit(d: int): char
    requires 0 <= d <= 9
  {
    ('0' as int + d) as char
  }

  /** A date that starts with a year written in four digits yields that year, whatever follows. */
  lemma YearRoundTrip(a: int, b: int, c: int, d: int, rest: string)
    requires 0 <= a <= 9 && 0 <= b <= 9 && 0 <= c <= 9 && 0 <= d <= 9
    ensures ExtractYear([Digit(a), Digit(b), Digit(c), Digit(d)] + rest) == 1000 * a + 100 * b + 10 * c + d
  {
    var s := [Digit(a), Digit(b), Digit(c), Digit(d)] + rest;
    assert s[..4] == [Digit(a), Digit(b), Digit(c), Digit(d)];
    assert DigitValue(Digit(a)) == a && DigitValue(Digit(b)) == b;
    assert DigitValue(Digit(c)) == c && DigitValue(Digit(d)) == d;
  }

  // ---------------------------------------------------------------- entries

  /** An XML element as the adapter reads it: its text, None when it has none. */
  datatype Element = Element(text: Option<string>)

  /** An `atom:author` (section 4.2.1 of RFC 4287) with its first `atom:name` child (section 3.2.1). */
  datatype AuthorNode = AuthorNode(name: Option<Element>)

  /** An `atom:category` (section 4.2.2) with its `term` attribute. */
  datatype CategoryNode = CategoryNode(term: Option<string>)

  /**
    An `atom:entry` (section 4.1.2): the first `atom:title` (4.2.14), `atom:summary` (4.2.13),
    `atom:published` (4.2.9), `atom:updated` and `atom:id` (4.2.6) children, when present, and
    every `atom:author` and `atom:category` child in document order.
   */
  datatype Entry = Entry(
    title: Option<Element>,
    authors: seq<AuthorNode>,
    summary: Option<Element>,
    published: Option<Element>,
    updated: Option<Element>,
    id: Option<Element>,
    categories: seq<CategoryNode>)

  /** The normalised record of one entry. `published` and `updated` are None when the element has no text. */
  datatype ArxivPaper = ArxivPaper(
    title: string,
    authors: seq<string>,
    abstractText: string,
    published: Option<string>,
    updated: Option<string>,
    arxivId: string,
    pdfUrl: string,
    categories: seq<string>)

  /** The element is present and its text is non-empty (`elem is not None and elem.text`). */
  predicate HasText(e: Option<Element>) {
    e.Some? && e.value.text.Some? && e.value.text.value != []
  }

  /** `elem.text if elem is not None else ""`. */
  function TextOrEmpty(e: Option<Element>): Option<string> {
    match e
    case None => Some("")
    case Some(el) => el.text
  }

  /** An author's name, stripped, when its `atom:name` has text. */
  function AuthorName(a: AuthorNode): Option<string> {
    if HasText(a.name) then Some(Strip(a.name.value.text.value)) else None
  }

  /** A category's `term`, when it is non-empty. */
  function CategoryTerm(c: CategoryNode): Option<string> {
    if c.term.Some? && c.term.value != [] then c.term else None
  }

  /** `s.split("/")[-1]`. */
  function LastSegment(s: string): string {
    var parts := SplitOn(s, '/');
    parts[|parts| - 1]
  }

  /** The text after the last `/`: a suffix without `/`, preceded by `/` unless it is the whole text. */
  lemma {:induction false} LastSegmentSpec(s: string)
    ensures var r := LastSegment(s);
      |r| <= |s| && r == s[|s| - |r|..] && '/' !in r && (|r| < |s| ==> s[|s| - |r| - 1] == '/')
    decreases |s|
  {
    match IndexOf(s, '/', 0)
    case None =>
      assert SplitOn(s, '/') == [s];
      assert forall i :: 0 <= i < |s| ==> s[i] != '/';
    case Some(i) =>
      var rest := s[i + 1..];
      LastSegmentSpec(rest);
      var r := LastSegment(rest);
      assert LastSegment(s) == r by {
        assert SplitOn(s, '/') == [s[..i]] + SplitOn(rest, '/');
      }
      LastSegmentStep(s, i, r);
  }

  /** The segment after the first `/` ends the text, so it ends the whole text too. */
  lemma LastSegmentStep(s: string, i: nat, r: string)
    requires i < |s| && s[i] == '/'
    requires var rest := s[i + 1..];
      |r| <= |rest| && r == rest[|rest| - |r|..] && (|r| < |rest| ==> rest[|rest| - |r| - 1] == '/')
    ensures |r| < |s| && r == s[|s| - |r|..] && s[|s| - |r| - 1] == '/'
  {
    var rest := s[i + 1..];
    SuffixOfSuffix(s, i + 1, |r|);
    if |r| == |rest| {
      assert s[|s| - |r| - 1] == s[i];
    } else {
      assert s[|s| - |r| - 1] == rest[|rest| - |r| - 1];
    }
  }

  lemma SuffixOfSuffix(s: string, i: nat, n: nat)
    requires i <= |s| && n <= |s| - i
    ensures s[i..][|s| - i - n..] == s[|s| - n..]
  {
    var t := s[i..];
    var u := t[|t| - n..];
    forall k | 0 <= k < n ensures u[k] == s[|s| - n + k] {
      assert u[k] == t[|t| - n + k];
    }
  }

  const PdfUrlPrefix := "https://arxiv.org/pdf/"

  /** The identifier and the PDF URL built from it, both `""` without an id. */
  function IdAndPdfUrl(id: Option<Element>): (string, string) {
    if HasText(id) then
      var arxivId := LastSegment(id.value.text.value);
      (arxivId, PdfUrlPrefix + arxivId + ".pdf")
    else ("", "")
  }

  /** The record `_parse_entry` builds, or None when the title or the summary is missing or empty. */
  function EntryPaper(e: Entry): (r: Option<ArxivPaper>)
    ensures r.None? <==> !HasText(e.title) || !HasText(e.summary)
  {
    if !HasText(e.title) || !HasText(e.summary) then None
    else
      var ids := IdAndPdfUrl(e.id);
      Some(ArxivPaper(
        CleanText(e.title.value.text),
        FilterMap(e.authors, AuthorName),
        CleanText(e.summary.value.text),
        TextOrEmpty(e.published),
        TextOrEmpty(e.updated),
        ids.0,
        ids.1,
        FilterMap(e.categories, CategoryTerm)))
  }

  /** `_parse_entry`. */
  method ParseEntry(entry: Entry) returns (r: Option<ArxivPaper>)
    ensures r == EntryPaper(entry)
  {
    if !HasText(entry.title) {
      return None;
    }
    var title := CleanText(entry.title.value.text);

    var authors := ParseAuthors(entry.authors);

    if !HasText(entry.summary) {
      return None;
    }
    var abstractText := CleanText(entry.summary.value.text);

    var published := if entry.published.Some? then entry.published.value.text else Some("");
    var updated := if entry.updated.Some? then entry.updated.value.text else Some("");

    var arxivId := "";
    var pdfUrl := "";
    if entry.id.Some? && entry.id.value.text.Some? && entry.id.value.text.value != [] {
      arxivId := LastSegment(entry.id.value.text.value);
      pdfUrl := PdfUrlPrefix + arxivId + ".pdf";
    }

    var categories := ParseCategories(entry.categories);

    r := Some(ArxivPaper(title, authors, abstractText, published, updated, arxivId, pdfUrl, categories));
  }

  /** A parsed entry's authors are exactly the stripped names that have text, in document order. */
  lemma EntryAuthors(e: Entry, a: string)
    requires EntryPaper(e).Some?
    ensures a in EntryPaper(e).value.authors <==>
      exists i :: 0 <= i < |e.authors| && HasText(e.authors[i].name) && a == Strip(e.authors[i].name.value.text.value)
    ensures |EntryPaper(e).value.authors| <= |e.authors|
  {
    assert EntryPaper(e).value.authors == FilterMap(e.authors, AuthorName);
    FilterMapExactly(e.authors, AuthorName, a);
  }

  /** A parsed entry's categories are exactly the non-empty `term` attributes, in document order. */
  lemma EntryCategories(e: Entry, c: string)
    requires EntryPaper(e).Some?
    ensures c in EntryPaper(e).value.categories <==>
      exists i :: 0 <= i < |e.categories| && e.categories[i].term == Some(c) && c != []
    ensures |EntryPaper(e).value.categories| <= |e.categories|
  {
    assert EntryPaper(e).value.categories == FilterMap(e.categories, CategoryTerm);
    FilterMapExactly(e.categories, CategoryTerm, c);
  }

  /** The author loop of `_parse_entry`: the stripped names that have text, in document order. */
  method ParseAuthors(nodes: seq<AuthorNode>) returns (authors: seq<string>)
    ensures authors == FilterMap(nodes, AuthorName)
  {
    authors := [];
    var i := 0;
    while i < |nodes|
      invariant 0 <= i <= |nodes|
      invariant authors == FilterMap(nodes[..i], AuthorName)
    {
      FilterMapSnoc(nodes, AuthorName, i);
      var nameElem := nodes[i].name;
      if nameElem.Some? && nameElem.value.text.Some? && nameElem.value.text.value != [] {
        authors := authors + [Strip(nameElem.value.text.value)];
      }
      i := i + 1;
    }
    assert nodes[..i] == nodes;
  }

  /** The category loop of `_parse_entry`: the non-empty terms, in document order. */
  method ParseCategories(nodes: seq<CategoryNode>) returns (categories: seq<string>)
    ensures categories == FilterMap(nodes, CategoryTerm)
  {
    categories := [];
    var j := 0;
    while j < |nodes|
      invariant 0 <= j <= |nodes|
      invariant categories == FilterMap(nodes[..j], CategoryTerm)
    {
      FilterMapSnoc(nodes, CategoryTerm, j);
      var term := nodes[j].term;
      if term.Some? && term.value != [] {
        categories := categories + [term.value];
      }
      j := j + 1;
    }
    assert nodes[..j] == nodes;
  }

  /**
    The identifier of a parsed entry is the id's text after its last `/`, and its PDF URL is built
    from that identifier; both are empty without an id.
   */
  lemma IdentifierOfId(id: Option<Element>)
    ensures var (arxivId, pdfUrl) := IdAndPdfUrl(id);
      if HasText(id) then
        var s := id.value.text.value;
        pdfUrl == "https://arxiv.org/pdf/" + arxivId + ".pdf" &&
        |arxivId| <= |s| && arxivId == s[|s| - |arxivId|..] && '/' !in arxivId &&
        (|arxivId| < |s| ==> s[|s| - |arxivId| - 1] == '/')
      else arxivId == "" && pdfUrl == ""
  {
    if HasText(id) {
      LastSegmentSpec(id.value.text.value);
    }
  }

  // ---------------------------------------------------------------- feeds and search

  /** What ElementTree makes of the response body: a ParseError, or the feed's entries in document order. */
  datatype Feed = Malformed | Feed(entries: seq<Entry>)

  /** The records of the entries that yield one, in feed order. */
  function FeedPapers(entries: seq<Entry>): seq<ArxivPaper> {
    FilterMap(entries, EntryPaper)
  }

  /** `_parse_response`: a malformed feed is a ValueError; otherwise the entries that parse, in order. */
  method ParseResponse(feed: Feed) returns (r: Result<seq<ArxivPaper>, SourceError>)
    ensures feed.Malformed? ==> r == Err(ParseError)
    ensures feed.Feed? ==> r == Ok(FeedPapers(feed.entries))
  {
    if feed.Malformed? {
      return Err(ParseError);
    }
    var papers: seq<ArxivPaper> := [];
    var i := 0;
    while i < |feed.entries|
      invariant 0 <= i <= |feed.entries|
      invariant papers == FeedPapers(feed.entries[..i])
    {
      FilterMapSnoc(feed.entries, EntryPaper, i);
      var paper := ParseEntry(feed.entries[i]);
      if paper.Some? {
        papers := papers + [paper.value];
      }
      i := i + 1;
    }
    assert feed.entries[..i] == feed.entries;
    r := Ok(papers);
  }

  /** An entry contributes a record iff it has a non-empty title and summary; the order of the feed is kept. */
  lemma FeedPapersExactly(entries: seq<Entry>, p: ArxivPaper)
    ensures p in FeedPapers(entries) <==> exists i :: 0 <= i < |entries| && EntryPaper(entries[i]) == Some(p)
    ensures |FeedPapers(entries)| <= |entries|
    ensures forall k :: 0 <= k <= |entries| ==>
      FeedPapers(entries) == FeedPapers(entries[..k]) + FeedPapers(entries[k..])
  {
    FilterMapExactly(entries, EntryPaper, p);
    FilterMapSplit(entries, EntryPaper);
  }

  /** Two entries, one without a summary: exactly one record. */
  lemma OneEntryWithoutSummary(good: Entry, bad: Entry)
    requires HasText(good.title) && HasText(good.summary) && bad.summary.None?
    ensures |FeedPapers([good, bad])| == 1
  {
    FilterMapPair(good, bad, EntryPaper);
  }

  /** The query parameters of a search. */
  datatype Request = Request(searchQuery: string, start: int, maxResults: int, sortBy: string, sortOrder: string)

  /** What the GET produced: a raised RequestException, or a status and the parsed body. */
  datatype Response = Raised | Answered(status: int, feed: Feed)

  /** The request `search` sends. */
  function SearchRequest(query: string, maxResults: int): Request {
    Request(PreparedQuery(query), 0, maxResults, "relevance", "descending")
  }

  /**
    `search`: transport failures and error statuses are RequestExceptions, a malformed feed a
    ValueError; otherwise the parsed records.
   */
  function Search(response: Response): (r: Result<seq<ArxivPaper>, SourceError>)
    ensures r == Err(RequestError) <==> response.Raised? || ErrorStatus(response.status)
    ensures r == Err(ParseError) <==> response.Answered? && !ErrorStatus(response.status) && response.feed.Malformed?
    ensures r.Ok? ==> r.value == FeedPapers(response.feed.entries)
  {
    match response
    case Raised => Err(RequestError)
    case Answered(status, feed) =>
      if ErrorStatus(status) then Err(RequestError)
      else match feed
        case Malformed => Err(ParseError)
        case Feed(entries) => Ok(FeedPapers(entries))
  }
}
