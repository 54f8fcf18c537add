/**
  The search front end that reconciles arXiv and Semantic Scholar: it asks each source for
  half the wanted number of papers, converts what comes back to one record format with a
  relevance score, drops near-duplicate titles, ranks the rest and keeps the first
  `max_results`.

  Relevance is an exact rational rather than a float, and the 0.8 Jaccard threshold is the
  integer test `5 * |common| >= 4 * |all|`.
 */
module RealAcademicSearch {
  import opened Wrappers
  import opened Text
  import opened Seqs
  import opened Json
  import opened Http
  import opened Clocks
  import ArxivClient
  import SemanticScholar

  // ---------------------------------------------------------------- records

  /** `SearchResult`: the record both sources are converted to. */
  datatype SearchResult = SearchResult(
    title: string,
    authors: seq<Json>,
    abstractText: string,
    year: int,
    venue: string,
    citationCount: int,
    relevanceScore: real,
    url: Json)

  /** The keys of `to_dict`, in order. */
  const DictKeys: seq<string> :=
    ["title", "authors", "abstract", "year", "venue", "citation_count", "relevance_score", "url"]

  /** `to_dict`: a dict with exactly the eight fields of the record. */
  function ToDict(r: SearchResult): (d: Json)
    ensures d.JObj? && |d.fields| == |DictKeys| == 8
    ensures forall k :: 0 <= k < 8 ==> d.fields[k].0 == DictKeys[k]
  {
    JObj([
      ("title", JStr(r.title)),
      ("authors", JArr(r.authors)),
      ("abstract", JStr(r.abstractText)),
      ("year", JInt(r.year)),
      ("venue", JStr(r.venue)),
      ("citation_count", JInt(r.citationCount)),
      ("relevance_score", JReal(r.relevanceScore)),
      ("url", r.url)])
  }

  /** A record from the eight values read out of a dict, when each has the type of its field. */
  function FromValues(title: Option<Json>, authors: Option<Json>, summary: Option<Json>, year: Option<Json>,
                      venue: Option<Json>, citations: Option<Json>, score: Option<Json>, url: Option<Json>)
    : Option<SearchResult>
  {
    if title.Some? && title.value.JStr? && authors.Some? && authors.value.JArr? &&
      summary.Some? && summary.value.JStr? && year.Some? && year.value.JInt? &&
      venue.Some? && venue.value.JStr? && citations.Some? && citations.value.JInt? &&
      score.Some? && score.value.JReal? && url.Some?
    then Some(SearchResult(title.value.s, authors.value.elems, summary.value.s, year.value.i,
      venue.value.s, citations.value.i, score.value.r, url.value))
    else None
  }

  /** Reads a record back from a dict of the shape `to_dict` produces. */
  function FromDict(d: Json): Option<SearchResult> {
    match d
    case JObj(f) =>
      FromValues(Get(f, "title"), Get(f, "authors"), Get(f, "abstract"), Get(f, "year"),
        Get(f, "venue"), Get(f, "citation_count"), Get(f, "relevance_score"), Get(f, "url"))
    case _ => None
  }

  /** Each key of `to_dict` reads back the field stored under it. */
  lemma ToDictGet(r: SearchResult, k: nat)
    requires k < 8
    ensures Get(ToDict(r).fields, DictKeys[k]) == Some(ToDict(r).fields[k].1)
  {
    var f := ToDict(r).fields;
    if k == 0 { GetAt(f, 0); }
    else if k == 1 { GetAt(f, 1); }
    else if k == 2 { GetAt(f, 2); }
    else if k == 3 { GetAt(f, 3); }
    else if k == 4 { GetAt(f, 4); }
    else if k == 5 { GetAt(f, 5); }
    else if k == 6 { GetAt(f, 6); }
    else { GetAt(f, 7); }
  }

  /** `to_dict` loses nothing: the record can be read back from it. */
  lemma ToDictRoundTrip(r: SearchResult)
    ensures FromDict(ToDict(r)) == Some(r)
  {
    ToDictGet(r, 0);
    ToDictGet(r, 1);
    ToDictGet(r, 2);
    ToDictGet(r, 3);
    ToDictGet(r, 4);
    ToDictGet(r, 5);
    ToDictGet(r, 6);
    ToDictGet(r, 7);
  }

  // ---------------------------------------------------------------- relevance

  /** The length of the leading run of characters outside `\w`. */
  function NonWordLength(s: string): (n: nat)
    ensures n <= |s|
    ensures forall i :: 0 <= i < n ==> !IsWordChar(s[i])
    ensures n < |s| ==> IsWordChar(s[n])
    decreases |s|
  {
    if s == [] || IsWordChar(s[0]) then 0 else 1 + NonWordLength(s[1..])
  }

  /** The length of the leading run of `\w` characters. */
  function WordRunLength(s: string): (n: nat)
    ensures n <= |s|
    ensures forall i :: 0 <= i < n ==> IsWordChar(s[i])
    ensures n < |s| ==> !IsWordChar(s[n])
    decreases |s|
  {
    if s == [] || !IsWordChar(s[0]) then 0 else 1 + WordRunLength(s[1..])
  }

  /** A non-empty string of `\w` characters. */
  predicate IsWordRun(w: string) {
    w != [] && forall i :: 0 <= i < |w| ==> IsWordChar(w[i])
  }

  /**
    The non-empty pieces of `re.split(r"[^\w]+", s)`: the maximal runs of `\w` characters, in
    order. (The pieces `re.split` adds are empty strings at the ends.)
   */
  function WordRuns(s: string): (ws: seq<string>)
    ensures forall k :: 0 <= k < |ws| ==> IsWordRun(ws[k])
    decreases |s|
  {
    var t := s[NonWordLength(s)..];
    if t == [] then []
    else
      var n := WordRunLength(t);
      [t[..n]] + WordRuns(t[n..])
  }

  /** Keeps a piece longer than two characters. */
  function LongTerm(t: string): Option<string> {
    if |t| > 2 then Some(t) else None
  }

  /** The query terms: the word runs of the lowercased query longer than two characters, repeats kept. */
  function RelevanceTerms(query: string): (terms: seq<string>)
    ensures forall k :: 0 <= k < |terms| ==> IsWordRun(terms[k]) && |terms[k]| > 2
  {
    var runs := WordRuns(Lower(query));
    var terms := FilterMap(runs, LongTerm);
    forall k | 0 <= k < |terms| ensures IsWordRun(terms[k]) && |terms[k]| > 2 {
      FilterMapExactly(runs, LongTerm, terms[k]);
    }
    terms
  }

  /** How many of the terms occur in `text` as substrings, each occurrence of a term in the list counted. */
  function Matches(terms: seq<string>, text: string): (n: nat)
    ensures n <= |terms|
  {
    if terms == [] then 0
    else Matches(terms[..|terms| - 1], text) + (if Contains(text, terms[|terms| - 1]) then 1 else 0)
  }

  /** `min(1.0, max(0.0, x))`. */
  function Clamp(x: real): real {
    if x > 1.0 then 1.0 else if x < 0.0 then 0.0 else x
  }

  /** The weighted match ratio `0.7 * t / n + 0.3 * a / n`, exactly. */
  function Weighted(t: nat, a: nat, n: nat): real
    requires n > 0
  {
    ((7 * t + 3 * a) as real) / ((10 * n) as real)
  }

  /**
    `_calculate_relevance_score`: 0.5 for an empty query or one without a term; otherwise the
    weighted share of terms found in the lowercased title and abstract.
   */
  function Relevance(title: string, abstractText: string, query: string): (score: real)
    ensures 0.0 <= score <= 1.0
  {
    if query == [] then 0.5
    else
      var terms := RelevanceTerms(query);
      if terms == [] then 0.5
      else Clamp(Weighted(Matches(terms, Lower(title)), Matches(terms, Lower(abstractText)), |terms|))
  }

  /** A share of at most the whole lies in [0, 1]. */
  lemma RatioBounds(x: real, y: real)
    requires 0.0 <= x <= y && y > 0.0
    ensures 0.0 <= x / y <= 1.0
    ensures x == y ==> x / y == 1.0
    ensures x == 0.0 ==> x / y == 0.0
  {
  }

  lemma WeightedBounds(t: nat, a: nat, n: nat)
    requires n > 0 && t <= n && a <= n
    ensures 0.0 <= Weighted(t, a, n) <= 1.0
    ensures t == n && a == n ==> Weighted(t, a, n) == 1.0
    ensures t == 0 && a == 0 ==> Weighted(t, a, n) == 0.0
  {
    var num := (7 * t + 3 * a) as real;
    var den := (10 * n) as real;
    assert 0.0 <= num <= den;
    assert t == n && a == n ==> num == den;
    RatioBounds(num, den);
  }

  /**
    The clamp never bites: the score is exactly `(7t + 3a) / (10n)`, with n the number of terms
    and t and a those found in the title and the abstract.
   */
  lemma RelevanceExact(title: string, abstractText: string, query: string)
    requires query != [] && RelevanceTerms(query) != []
    ensures var terms := RelevanceTerms(query);
      Relevance(title, abstractText, query) ==
        Weighted(Matches(terms, Lower(title)), Matches(terms, Lower(abstractText)), |terms|)
  {
    var terms := RelevanceTerms(query);
    WeightedBounds(Matches(terms, Lower(title)), Matches(terms, Lower(abstractText)), |terms|);
  }

  /** Every term is counted once per occurrence in the list, so `Matches` counts with repetition. */
  lemma {:induction false} MatchesAll(terms: seq<string>, text: string)
    ensures (forall k :: 0 <= k < |terms| ==> Contains(text, terms[k])) ==> Matches(terms, text) == |terms|
    ensures (forall k :: 0 <= k < |terms| ==> !Contains(text, terms[k])) ==> Matches(terms, text) == 0
  {
    if terms != [] {
      MatchesAll(terms[..|terms| - 1], text);
    }
  }

  /** A title and abstract containing every term score 1.0; ones containing none score 0.0. */
  lemma RelevanceExtremes(title: string, abstractText: string, query: string)
    requires query != [] && RelevanceTerms(query) != []
    ensures var terms := RelevanceTerms(query);
      ((forall k :: 0 <= k < |terms| ==> Contains(Lower(title), terms[k]) && Contains(Lower(abstractText), terms[k])) ==>
        Relevance(title, abstractText, query) == 1.0) &&
      ((forall k :: 0 <= k < |terms| ==> !Contains(Lower(title), terms[k]) && !Contains(Lower(abstractText), terms[k])) ==>
        Relevance(title, abstractText, query) == 0.0)
  {
    var terms := RelevanceTerms(query);
    MatchesAll(terms, Lower(title));
    MatchesAll(terms, Lower(abstractText));
    RelevanceExact(title, abstractText, query);
    WeightedBounds(Matches(terms, Lower(title)), Matches(terms, Lower(abstractText)), |terms|);
  }

  // ---------------------------------------------------------------- conversion

  /** `_extract_year_from_date`: a missing or empty date gives 2024; otherwise the leading four digits. */
  function YearFromDate(date: Option<string>): (year: int)
    ensures date.Some? && ArxivClient.StartsWithYear(date.value) ==> year == ArxivClient.FourDigitValue(date.value[..4])
    ensures date.None? || !ArxivClient.StartsWithYear(date.value) ==> year == 2024
  {
    if date.None? || date.value == [] then 2024
    else if ArxivClient.StartsWithYear(date.value) then ArxivClient.FourDigitValue(date.value[..4])
    else 2024
  }

  /** The date extractor of the front end agrees with the arXiv client's on every date. */
  lemma YearFromDateAgrees(date: Option<string>)
    ensures YearFromDate(date) == ArxivClient.ExtractYear(date.GetOr(""))
  {
  }

  /** The readable names of common arXiv categories. */
  const CategoryNames: map<string, string> := map[
    "cs.AI" := "Computer Science - Artificial Intelligence",
    "cs.CL" := "Computer Science - Computation and Language",
    "cs.CV" := "Computer Science - Computer Vision",
    "cs.LG" := "Computer Science - Machine Learning",
    "cs.NE" := "Computer Science - Neural Networks",
    "stat.ML" := "Statistics - Machine Learning",
    "math.ST" := "Mathematics - Statistics Theory",
    "physics" := "Physics",
    "q-bio" := "Quantitative Biology"]

  /** `category_map.get(c, c)`. */
  function CategoryName(c: string): string {
    GetOrKey(CategoryNames, c)
  }

  /** `names.get(c, c)`. */
  function GetOrKey(names: map<string, string>, c: string): string {
    if c in names then names[c] else c
  }

  const ArxivVenue := "arXiv preprint"

  /** `_format_arxiv_venue`: the venue names the first category, readably when it is a known one. */
  function ArxivVenueOf(categories: seq<string>): (venue: string)
    ensures categories == [] ==> venue == ArxivVenue
    ensures categories != [] ==> venue == ArxivVenue + " (" + CategoryName(categories[0]) + ")"
  {
    if categories == [] then ArxivVenue else ArxivVenue + " (" + CategoryName(categories[0]) + ")"
  }

  /** Every arXiv venue starts with "arXiv preprint". */
  lemma ArxivVenuePrefix(categories: seq<string>)
    ensures ArxivVenueOf(categories)[..|ArxivVenue|] == ArxivVenue
  {
    var rest := if categories == [] then "" else " (" + CategoryName(categories[0]) + ")";
    assert ArxivVenueOf(categories) == ArxivVenue + rest;
    assert (ArxivVenue + rest)[..|ArxivVenue|] == ArxivVenue;
  }

  /** Only the first category matters. */
  lemma ArxivVenueFirstOnly(categories: seq<string>, more: seq<string>)
    requires categories != []
    ensures ArxivVenueOf(categories + more) == ArxivVenueOf(categories)
  {
    assert (categories + more)[0] == categories[0];
  }

  /** A known category is named readably: `cs.LG` first gives the machine-learning venue. */
  lemma MachineLearningVenue(categories: seq<string>)
    requires categories != [] && categories[0] == "cs.LG"
    ensures ArxivVenueOf(categories) == ArxivVenue + " (" + "Computer Science - Machine Learning" + ")"
  {
    var k := "cs.LG";
    assert k[3] == 'L' && k[..3] == "cs.";
    assert k != "cs.NE" && k != "stat.ML" && k != "math.ST" && k != "physics" && k != "q-bio" by {
      assert "cs.NE"[3] == 'N' && |"stat.ML"| != 5 && |"math.ST"| != 5 && |"physics"| != 5 && "q-bio"[0] == 'q';
    }
    assert CategoryNames[k] == "Computer Science - Machine Learning";
  }

  /** An unknown category is named as it is. */
  lemma UnknownCategoryVenue(categories: seq<string>)
    requires categories != [] && categories[0] !in CategoryNames
    ensures ArxivVenueOf(categories) == ArxivVenue + " (" + categories[0] + ")"
  {
  }

  /** `_convert_arxiv_paper`. */
  function FromArxiv(p: ArxivClient.ArxivPaper, query: string): SearchResult {
    SearchResult(
      p.title,
      seq(|p.authors|, i requires 0 <= i < |p.authors| => JStr(p.authors[i])),
      p.abstractText,
      YearFromDate(p.published),
      ArxivVenueOf(p.categories),
      0,
      Relevance(p.title, p.abstractText, query),
      JStr(p.pdfUrl))
  }

  /** `_convert_semantic_scholar_paper`. */
  function FromSemanticScholar(p: SemanticScholar.S2Paper, query: string): SearchResult {
    SearchResult(p.title, p.authors, p.abstractText, p.year, p.venue, p.citationCount,
      Relevance(p.title, p.abstractText, query), p.url)
  }

  /**
    A converted arXiv record has no citations, the PDF URL, the year of its publication date and
    an arXiv venue; a converted Semantic Scholar record keeps every field but the score. Both
    scores lie in [0, 1].
   */
  lemma ConvertedRecords(a: ArxivClient.ArxivPaper, s: SemanticScholar.S2Paper, query: string)
    ensures var r := FromArxiv(a, query);
      r.citationCount == 0 && r.url == JStr(a.pdfUrl) && r.title == a.title && r.abstractText == a.abstractText &&
      |r.authors| == |a.authors| && (forall i :: 0 <= i < |a.authors| ==> r.authors[i] == JStr(a.authors[i])) &&
      r.year == ArxivClient.ExtractYear(a.published.GetOr("")) &&
      r.venue[..|ArxivVenue|] == ArxivVenue && 0.0 <= r.relevanceScore <= 1.0
    ensures var r := FromSemanticScholar(s, query);
      r.title == s.title && r.authors == s.authors && r.abstractText == s.abstractText && r.year == s.year &&
      r.venue == s.venue && r.citationCount == s.citationCount && r.url == s.url && 0.0 <= r.relevanceScore <= 1.0
  {
    YearFromDateAgrees(a.published);
    ArxivVenuePrefix(a.categories);
  }

  // ---------------------------------------------------------------- titles

  /** `re.sub(r"[^\w\s]", " ", c)` on one character. */
  function Unsymbol(c: char): char {
    if IsWordChar(c) || IsSpace(c) then c else ' '
  }

  function Unsymbols(s: string): (r: string)
    ensures |r| == |s|
    ensures forall i :: 0 <= i < |s| ==> r[i] == Unsymbol(s[i])
  {
    seq(|s|, i requires 0 <= i < |s| => Unsymbol(s[i]))
  }

  /**
    `_normalize_title`: the words of the lowercased title, with every character outside `\w`
    and whitespace turned into a space, joined by single spaces.
   */
  function NormalizeTitle(title: string): (r: string)
    ensures r == SingleSpaced(Unsymbols(Lower(title)))
  {
    if title == [] then []
    else
      var x := Unsymbols(Lower(title));
      StripOfCollapse(x);
      Strip(Collapse(x))
  }

  /** The characters `re.sub(r"\s+", " ", s)` produces come from `s` or are the single space. */
  lemma {:induction false} CollapseKeeps(s: string, p: char -> bool)
    requires forall i :: 0 <= i < |s| ==> p(s[i]) || IsSpace(s[i])
    ensures forall i :: 0 <= i < |Collapse(s)| ==> p(Collapse(s)[i]) || Collapse(s)[i] == ' '
    decreases |s|
  {
    if s != [] {
      if IsSpace(s[0]) {
        var t := TrimStart(s);
        assert t == s[|s| - |t|..];
        forall i | 0 <= i < |t| ensures p(t[i]) || IsSpace(t[i]) {
          assert t[i] == s[|s| - |t| + i];
        }
        CollapseKeeps(t, p);
      } else {
        forall i | 0 <= i < |s[1..]| ensures p(s[1..][i]) || IsSpace(s[1..][i]) {
          assert s[1..][i] == s[i + 1];
        }
        CollapseKeeps(s[1..], p);
      }
    }
  }

  /** A lowercase word character: what the lowercased title keeps of `\w`. */
  predicate TitleChar(c: char) {
    'a' <= c <= 'z' || IsDigit(c) || c == '_'
  }

  /** Lowercasing and blanking symbols leaves lowercase word characters and whitespace. */
  lemma UnsymbolsOfLower(title: string)
    ensures var x := Unsymbols(Lower(title));
      forall i :: 0 <= i < |x| ==> TitleChar(x[i]) || IsSpace(x[i])
  {
    var l := Lower(title);
    var x := Unsymbols(l);
    forall i | 0 <= i < |x| ensures TitleChar(x[i]) || IsSpace(x[i]) {
      assert l[i] == LowerChar(title[i]);
      assert x[i] == Unsymbol(l[i]);
    }
  }

  /** Collapsing and stripping such a text leaves those characters and single inner spaces. */
  lemma CollapsedShape(x: string)
    requires forall i :: 0 <= i < |x| ==> TitleChar(x[i]) || IsSpace(x[i])
    ensures var n := Strip(Collapse(x));
      (forall i :: 0 <= i < |n| ==> TitleChar(n[i]) || n[i] == ' ') &&
      NoDoubleSpace(n) && (n == [] || (n[0] != ' ' && n[|n| - 1] != ' '))
  {
    CollapseKeeps(x, TitleChar);
    StrippedShape(Collapse(x));
  }

  /** Stripping a text of title characters and single spaces keeps those and drops the spaces at its ends. */
  lemma StrippedShape(c: string)
    requires forall i :: 0 <= i < |c| ==> TitleChar(c[i]) || c[i] == ' '
    requires NoDoubleSpace(c)
    ensures var n := Strip(c);
      (forall i :: 0 <= i < |n| ==> TitleChar(n[i]) || n[i] == ' ') &&
      NoDoubleSpace(n) && (n == [] || (n[0] != ' ' && n[|n| - 1] != ' '))
  {
    var lead := LeadingSpaces(c);
    var n := Strip(c);
    assert n == c[lead..lead + |n|];
    SliceTitleChars(c, lead, lead + |n|);
    SliceNoDoubleSpace(c, lead, lead + |n|);
  }

  lemma SliceTitleChars(c: string, lo: nat, hi: nat)
    requires lo <= hi <= |c| && forall i :: 0 <= i < |c| ==> TitleChar(c[i]) || c[i] == ' '
    ensures forall i :: 0 <= i < hi - lo ==> TitleChar(c[lo..hi][i]) || c[lo..hi][i] == ' '
  {
    forall i | 0 <= i < hi - lo ensures TitleChar(c[lo..hi][i]) || c[lo..hi][i] == ' ' {
      assert c[lo..hi][i] == c[lo + i];
    }
  }

  /**
    A normalized title is made of lowercase word characters and single spaces, without a space
    at either end.
   */
  lemma NormalizedShape(title: string)
    ensures var n := NormalizeTitle(title);
      (forall i :: 0 <= i < |n| ==> TitleChar(n[i]) || n[i] == ' ') &&
      NoDoubleSpace(n) && (n == [] || (n[0] != ' ' && n[|n| - 1] != ' '))
  {
    if title != [] {
      UnsymbolsOfLower(title);
      CollapsedShape(Unsymbols(Lower(title)));
    }
  }

  /** The set of words of a title. */
  function WordSet(t: string): set<string> {
    set w | w in Words(t)
  }

  /**
    `_titles_are_similar` with the default threshold: both titles have words and their Jaccard
    similarity is at least 0.8, tested on integers.
   */
  predicate Similar(t1: string, t2: string) {
    if t1 == [] || t2 == [] then false
    else
      var w1 := WordSet(t1);
      var w2 := WordSet(t2);
      if w1 == {} || w2 == {} then false
      else 5 * |w1 * w2| >= 4 * |w1 + w2|
  }

  /** The integer test is the ratio test `|common| / |all| >= 0.8` of the source. */
  lemma SimilarIsJaccard(t1: string, t2: string)
    ensures Similar(t1, t2) <==>
      t1 != [] && t2 != [] && WordSet(t1) != {} && WordSet(t2) != {} &&
      (|WordSet(t1) * WordSet(t2)| as real) / (|WordSet(t1) + WordSet(t2)| as real) >= 0.8
  {
    if t1 != [] && t2 != [] && WordSet(t1) != {} && WordSet(t2) != {} {
      var w1, w2 := WordSet(t1), WordSet(t2);
      var x :| x in w1;
      assert x in w1 + w2;
      JaccardTest(|w1 * w2|, |w1 + w2|);
    }
  }

  /** For a non-empty union, `5 |common| >= 4 |all|` is `|common| / |all| >= 0.8`. */
  lemma JaccardTest(common: nat, all: nat)
    requires all > 0
    ensures 5 * common >= 4 * all <==> (common as real) / (all as real) >= 0.8
  {
    var i, u := common as real, all as real;
    assert i / u * u == i;
    assert 5 * common >= 4 * all <==> 5.0 * i >= 4.0 * u;
  }

  lemma SimilarSymmetric(t1: string, t2: string)
    ensures Similar(t1, t2) == Similar(t2, t1)
  {
    assert WordSet(t1) * WordSet(t2) == WordSet(t2) * WordSet(t1);
    assert WordSet(t1) + WordSet(t2) == WordSet(t2) + WordSet(t1);
  }

  /** A title with a word is similar to itself; an empty title is similar to nothing. */
  lemma SimilarSelf(t: string, other: string)
    ensures NonBlank(t) ==> Similar(t, t)
    ensures !Similar([], other) && !Similar(other, [])
  {
    if NonBlank(t) {
      assert Words(t)[0] in WordSet(t);
      assert WordSet(t) * WordSet(t) == WordSet(t) + WordSet(t);
    }
  }

  // ---------------------------------------------------------------- deduplication

  /** The normalized title of a record, the key deduplication compares. */
  function TitleKey(r: SearchResult): string {
    NormalizeTitle(r.title)
  }

  /** The keys of the kept records: the `seen_titles` set. */
  function KeySet(kept: seq<SearchResult>, key: SearchResult -> string): set<string> {
    set r | r in kept :: key(r)
  }

  /** Some key already seen is similar to `n`. */
  predicate Duplicate(n: string, seen: set<string>, similar: (string, string) -> bool) {
    exists s :: s in seen && similar(n, s)
  }

  /** Keeps each record unless its key is similar to the key of a record already kept. */
  function DedupBy(rs: seq<SearchResult>, key: SearchResult -> string, similar: (string, string) -> bool)
    : (kept: seq<SearchResult>)
    ensures |kept| <= |rs|
  {
    if rs == [] then []
    else
      var prev := DedupBy(rs[..|rs| - 1], key, similar);
      var x := rs[|rs| - 1];
      if Duplicate(key(x), KeySet(prev, key), similar) then prev else prev + [x]
  }

  /**
    `_deduplicate_results`: each record is kept unless its normalized title is similar to that
    of a record already kept.
   */
  function Dedup(rs: seq<SearchResult>): seq<SearchResult> {
    DedupBy(rs, TitleKey, Similar)
  }

  /** The inner loop of `_deduplicate_results`: looks for a seen title similar to `normalized`, stopping at the first. */
  method SeenSimilar(normalized: string, seenTitles: set<string>) returns (isDuplicate: bool)
    ensures isDuplicate == Duplicate(normalized, seenTitles, Similar)
  {
    isDuplicate := false;
    var unvisited := seenTitles;
    while unvisited != {} && !isDuplicate
      invariant unvisited <= seenTitles
      invariant isDuplicate ==> Duplicate(normalized, seenTitles, Similar)
      invariant !isDuplicate ==> forall s :: s in seenTitles - unvisited ==> !Similar(normalized, s)
      decreases |unvisited|
    {
      var seen :| seen in unvisited;
      if Similar(normalized, seen) {
        isDuplicate := true;
      }
      unvisited := unvisited - {seen};
    }
  }

  /** `_deduplicate_results`: the loop keeping the records and the set of their normalized titles. */
  method DeduplicateResults(results: seq<SearchResult>) returns (deduplicated: seq<SearchResult>)
    ensures deduplicated == Dedup(results)
  {
    if results == [] {
      return results;
    }
    deduplicated := [];
    var seenTitles: set<string> := {};
    for i := 0 to |results|
      invariant deduplicated == DedupBy(results[..i], TitleKey, Similar)
      invariant seenTitles == KeySet(deduplicated, TitleKey)
    {
      var normalized := NormalizeTitle(results[i].title);
      var isDuplicate := SeenSimilar(normalized, seenTitles);
      assert results[..i + 1][..i] == results[..i];
      assert results[..i + 1][i] == results[i];
      assert TitleKey(results[i]) == normalized;
      if !isDuplicate {
        KeySetSnoc(deduplicated, results[i], TitleKey);
        deduplicated := deduplicated + [results[i]];
        seenTitles := seenTitles + {normalized};
      }
    }
    assert results[..|results|] == results;
  }

  lemma KeySetSnoc(kept: seq<SearchResult>, x: SearchResult, key: SearchResult -> string)
    ensures KeySet(kept + [x], key) == KeySet(kept, key) + {key(x)}
  {
    forall k | k in KeySet(kept + [x], key) ensures k in KeySet(kept, key) + {key(x)} {
      var r :| r in kept + [x] && key(r) == k;
    }
  }

  lemma {:induction false} DedupBySubsequence(rs: seq<SearchResult>, key: SearchResult -> string,
                                              similar: (string, string) -> bool)
    ensures Subsequence(DedupBy(rs, key, similar), rs)
  {
    if rs != [] {
      var init := rs[..|rs| - 1];
      var x := rs[|rs| - 1];
      DedupBySubsequence(init, key, similar);
      assert rs == init + [x];
      if DedupBy(rs, key, similar) == DedupBy(init, key, similar) {
        SubsequenceExtend(DedupBy(init, key, similar), init, x);
      } else {
        SubsequenceSnoc(DedupBy(init, key, similar), init, x);
      }
    }
  }

  lemma {:induction false} DedupByPrefix(rs: seq<SearchResult>, key: SearchResult -> string,
                                         similar: (string, string) -> bool, i: nat)
    requires i <= |rs|
    ensures DedupBy(rs[..i], key, similar) <= DedupBy(rs, key, similar)
    decreases |rs| - i
  {
    if i < |rs| {
      DedupByPrefix(rs, key, similar, i + 1);
      assert rs[..i + 1][..i] == rs[..i];
    } else {
      assert rs[..i] == rs;
    }
  }

  lemma DedupByStep(rs: seq<SearchResult>, key: SearchResult -> string, similar: (string, string) -> bool, i: nat)
    requires i < |rs|
    ensures var before := DedupBy(rs[..i], key, similar);
      DedupBy(rs[..i + 1], key, similar) == before + [rs[i]] ||
      (DedupBy(rs[..i + 1], key, similar) == before &&
       exists j :: 0 <= j < |before| && similar(key(rs[i]), key(before[j])))
    ensures (forall s :: !similar(key(rs[i]), s)) ==>
      DedupBy(rs[..i + 1], key, similar) == DedupBy(rs[..i], key, similar) + [rs[i]]
  {
    assert rs[..i + 1][..i] == rs[..i];
    assert rs[..i + 1][i] == rs[i];
    var before := DedupBy(rs[..i], key, similar);
    if Duplicate(key(rs[i]), KeySet(before, key), similar) {
      var s :| s in KeySet(before, key) && similar(key(rs[i]), s);
      var r :| r in before && key(r) == s;
      var j :| 0 <= j < |before| && before[j] == r;
    }
  }

  /** No two records of `d` have similar keys, in either order. */
  predicate NoSimilarPair(d: seq<SearchResult>, key: SearchResult -> string, similar: (string, string) -> bool) {
    forall i, j :: 0 <= i < j < |d| ==> !similar(key(d[i]), key(d[j])) && !similar(key(d[j]), key(d[i]))
  }

  lemma {:induction false} DedupByNoSimilarPair(rs: seq<SearchResult>, key: SearchResult -> string,
                                                similar: (string, string) -> bool)
    requires forall a, b :: similar(a, b) == similar(b, a)
    ensures NoSimilarPair(DedupBy(rs, key, similar), key, similar)
  {
    if rs != [] {
      var init := rs[..|rs| - 1];
      var x := rs[|rs| - 1];
      DedupByNoSimilarPair(init, key, similar);
      var prev := DedupBy(init, key, similar);
      if !Duplicate(key(x), KeySet(prev, key), similar) {
        var d := prev + [x];
        forall i, j | 0 <= i < j < |d|
          ensures !similar(key(d[i]), key(d[j])) && !similar(key(d[j]), key(d[i]))
        {
          if j == |prev| {
            assert d[j] == x && d[i] == prev[i];
            assert key(d[i]) in KeySet(prev, key);
            assert !similar(key(x), key(d[i]));
            assert similar(key(d[i]), key(x)) == similar(key(x), key(d[i]));
          } else {
            assert d[i] == prev[i] && d[j] == prev[j];
          }
        }
        assert DedupBy(rs, key, similar) == d;
      }
    }
  }

  /** The kept records are the input with some records deleted, order kept. */
  lemma DedupSubsequence(rs: seq<SearchResult>)
    ensures Subsequence(Dedup(rs), rs)
  {
    DedupBySubsequence(rs, TitleKey, Similar);
  }

  /** The first record is always kept, in first place. */
  lemma DedupKeepsFirst(rs: seq<SearchResult>)
    requires rs != []
    ensures Dedup(rs) != [] && Dedup(rs)[0] == rs[0]
  {
    DedupByPrefix(rs, TitleKey, Similar, 1);
    assert rs[..1][..0] == [];
    assert KeySet([], TitleKey) == {};
    assert DedupBy(rs[..1], TitleKey, Similar) == [rs[0]];
  }

  /**
    Record `i` is either kept, appended to what was kept of the records before it, or dropped
    because its normalized title is similar to that of a record kept before it. What is kept of
    the records before `i` is a prefix of the final output.
   */
  lemma DedupStep(rs: seq<SearchResult>, i: nat)
    requires i < |rs|
    ensures var before := Dedup(rs[..i]);
      Dedup(rs[..i + 1]) == before + [rs[i]] ||
      (Dedup(rs[..i + 1]) == before &&
       exists j :: 0 <= j < |before| && Similar(NormalizeTitle(rs[i].title), NormalizeTitle(before[j].title)))
    ensures Dedup(rs[..i]) <= Dedup(rs)
  {
    DedupByStep(rs, TitleKey, Similar, i);
    DedupByPrefix(rs, TitleKey, Similar, i);
  }

  /** A record whose title normalizes to "" is never dropped. */
  lemma DedupKeepsUntitled(rs: seq<SearchResult>, i: nat)
    requires i < |rs| && NormalizeTitle(rs[i].title) == []
    ensures Dedup(rs[..i + 1]) == Dedup(rs[..i]) + [rs[i]]
  {
    forall s ensures !Similar(TitleKey(rs[i]), s) {
      SimilarSelf(s, s);
    }
    DedupByStep(rs, TitleKey, Similar, i);
  }

  /** No two kept records have similar normalized titles, in either order. */
  lemma DedupNoSimilarPair(rs: seq<SearchResult>)
    ensures var d := Dedup(rs);
      forall i, j :: 0 <= i < j < |d| ==>
        !Similar(NormalizeTitle(d[i].title), NormalizeTitle(d[j].title)) &&
        !Similar(NormalizeTitle(d[j].title), NormalizeTitle(d[i].title))
  {
    forall a, b ensures Similar(a, b) == Similar(b, a) {
      SimilarSymmetric(a, b);
    }
    DedupByNoSimilarPair(rs, TitleKey, Similar);
    var d := Dedup(rs);
    forall i, j | 0 <= i < j < |d|
      ensures !Similar(NormalizeTitle(d[i].title), NormalizeTitle(d[j].title)) &&
        !Similar(NormalizeTitle(d[j].title), NormalizeTitle(d[i].title))
    {
      assert TitleKey(d[i]) == NormalizeTitle(d[i].title) && TitleKey(d[j]) == NormalizeTitle(d[j].title);
    }
  }

  // ---------------------------------------------------------------- ranking

  /**
    `a` ranks strictly ahead of `b`: the key `(-relevance, -citations, -year)` of `a` is
    lexicographically smaller.
   */
  predicate Ahead(a: SearchResult, b: SearchResult) {
    a.relevanceScore > b.relevanceScore ||
    (a.relevanceScore == b.relevanceScore &&
      (a.citationCount > b.citationCount || (a.citationCount == b.citationCount && a.year > b.year)))
  }

  /** Equal ranking keys. */
  predicate SameKey(a: SearchResult, b: SearchResult) {
    a.relevanceScore == b.relevanceScore && a.citationCount == b.citationCount && a.year == b.year
  }

  /** No record ranks strictly ahead of one before it. */
  predicate Ranked(s: seq<SearchResult>) {
    forall i, j :: 0 <= i < j < |s| ==> !Ahead(s[j], s[i])
  }

  /** Puts `x` after every record that does not rank strictly behind it. */
  function Insert(x: SearchResult, s: seq<SearchResult>): seq<SearchResult> {
    if s == [] then [x]
    else if Ahead(x, s[0]) then [x] + s
    else [s[0]] + Insert(x, s[1..])
  }

  lemma {:induction false} InsertPermutes(x: SearchResult, s: seq<SearchResult>)
    ensures multiset(Insert(x, s)) == multiset(s) + multiset{x}
  {
    if s != [] && !Ahead(x, s[0]) {
      InsertPermutes(x, s[1..]);
      assert s == [s[0]] + s[1..];
    }
  }

  /** `_rank_results`: Python's stable `sorted` on the key, as an insertion sort. */
  function Rank(rs: seq<SearchResult>): seq<SearchResult> {
    if rs == [] then [] else Insert(rs[|rs| - 1], Rank(rs[..|rs| - 1]))
  }

  /** The ranking is a permutation of its input. */
  lemma {:induction false} RankPermutes(rs: seq<SearchResult>)
    ensures multiset(Rank(rs)) == multiset(rs)
  {
    if rs != [] {
      var init, x := rs[..|rs| - 1], rs[|rs| - 1];
      RankPermutes(init);
      InsertPermutes(x, Rank(init));
      assert rs == init + [x];
      assert multiset(rs) == multiset(init) + multiset{x};
    }
  }

  lemma {:induction false} InsertRanked(x: SearchResult, s: seq<SearchResult>)
    requires Ranked(s)
    ensures Ranked(Insert(x, s))
  {
    if s != [] && !Ahead(x, s[0]) {
      InsertRanked(x, s[1..]);
      var r := Insert(x, s);
      var tail := Insert(x, s[1..]);
      assert r == [s[0]] + tail;
      InsertPermutes(x, s[1..]);
      forall j | 0 < j < |r| ensures !Ahead(r[j], s[0]) {
        assert r[j] == tail[j - 1];
        assert r[j] in multiset(tail);
        if r[j] != x {
          assert r[j] in multiset(s[1..]);
          var k :| 0 <= k < |s[1..]| && s[1..][k] == r[j];
          assert s[k + 1] == r[j];
        }
      }
    }
  }

  /** The ranking is ordered by relevance, then citations, then year, all descending. */
  lemma {:induction false} RankRanked(rs: seq<SearchResult>)
    ensures Ranked(Rank(rs))
  {
    if rs != [] {
      RankRanked(rs[..|rs| - 1]);
      InsertRanked(rs[|rs| - 1], Rank(rs[..|rs| - 1]));
    }
  }

  /** The records with the same key as `e`, in order. */
  function WithKey(s: seq<SearchResult>, e: SearchResult): seq<SearchResult> {
    if s == [] then []
    else (if SameKey(s[0], e) then [s[0]] else []) + WithKey(s[1..], e)
  }

  lemma {:induction false} WithKeyAppend(a: seq<SearchResult>, b: seq<SearchResult>, e: SearchResult)
    ensures WithKey(a + b, e) == WithKey(a, e) + WithKey(b, e)
  {
    if a != [] {
      assert (a + b)[1..] == a[1..] + b;
      WithKeyAppend(a[1..], b, e);
    } else {
      assert a + b == b;
    }
  }

  lemma {:induction false} WithKeyNone(s: seq<SearchResult>, e: SearchResult)
    requires forall k :: 0 <= k < |s| ==> !SameKey(s[k], e)
    ensures WithKey(s, e) == []
  {
    if s != [] {
      assert forall k :: 0 <= k < |s[1..]| ==> s[1..][k] == s[k + 1];
      WithKeyNone(s[1..], e);
    }
  }

  lemma RankedTail(s: seq<SearchResult>)
    requires s != [] && Ranked(s)
    ensures Ranked(s[1..])
    ensures forall k :: 0 <= k < |s| ==> !Ahead(s[k], s[0])
  {
    assert forall k :: 0 <= k < |s[1..]| ==> s[1..][k] == s[k + 1];
  }

  /** Inserting `x` into a ranked sequence puts it after every record with its key. */
  lemma {:induction false} InsertWithKey(x: SearchResult, s: seq<SearchResult>, e: SearchResult)
    requires Ranked(s)
    ensures WithKey(Insert(x, s), e) == WithKey(s, e) + (if SameKey(x, e) then [x] else [])
    decreases |s|
  {
    if s == [] {
      WithKeyCons(x, [], e);
    } else if Ahead(x, s[0]) {
      InsertAhead(x, s, e);
    } else {
      RankedTail(s);
      InsertWithKey(x, s[1..], e);
      var tail := Insert(x, s[1..]);
      assert Insert(x, s) == [s[0]] + tail;
      WithKeyCons(s[0], tail, e);
      WithKeyCons(s[0], s[1..], e);
      assert [s[0]] + s[1..] == s;
    }
  }

  lemma WithKeyCons(x: SearchResult, s: seq<SearchResult>, e: SearchResult)
    ensures WithKey([x] + s, e) == (if SameKey(x, e) then [x] else []) + WithKey(s, e)
  {
    assert ([x] + s)[0] == x && ([x] + s)[1..] == s;
  }

  /** Inserting ahead of a ranked sequence: no record after `x` shares its key. */
  lemma InsertAhead(x: SearchResult, s: seq<SearchResult>, e: SearchResult)
    requires Ranked(s) && s != [] && Ahead(x, s[0])
    ensures WithKey(Insert(x, s), e) == WithKey(s, e) + (if SameKey(x, e) then [x] else [])
  {
    assert Insert(x, s) == [x] + s;
    WithKeyCons(x, s, e);
    if SameKey(x, e) {
      RankedTail(s);
      WithKeyNone(s, e);
    }
  }

  /** The sort is stable: records with equal keys keep their input order. */
  lemma {:induction false} RankStable(rs: seq<SearchResult>, e: SearchResult)
    ensures WithKey(Rank(rs), e) == WithKey(rs, e)
  {
    if rs != [] {
      var init := rs[..|rs| - 1];
      var x := rs[|rs| - 1];
      RankStable(init, e);
      RankRanked(init);
      assert Rank(rs) == Insert(x, Rank(init));
      InsertWithKey(x, Rank(init), e);
      assert rs == init + [x];
      WithKeyAppend(init, [x], e);
      assert [x][1..] == [];
      assert WithKey([x], e) == (if SameKey(x, e) then [x] else []) + WithKey([], e);
    }
  }

  // ---------------------------------------------------------------- search

  /** `seq[:n]` in Python: a negative bound counts from the end. */
  function Take<T>(s: seq<T>, n: int): (r: seq<T>)
    ensures n >= 0 ==> |r| == if n < |s| then n else |s|
    ensures r <= s
  {
    if n >= 0 then (if n < |s| then s[..n] else s)
    else if |s| + n > 0 then s[..|s| + n] else []
  }

  /** The records of both sources before deduplication: arXiv's first, then Semantic Scholar's. */
  function Gathered(query: string, arxiv: Result<seq<ArxivClient.ArxivPaper>, SourceError>,
                    s2: Result<seq<SemanticScholar.S2Paper>, SourceError>): seq<SearchResult>
  {
    ArxivRecords(query, arxiv) + S2Records(query, s2)
  }

  /** The converted arXiv records, none when the source failed. */
  function ArxivRecords(query: string, arxiv: Result<seq<ArxivClient.ArxivPaper>, SourceError>): (rs: seq<SearchResult>)
    ensures |rs| == if arxiv.Ok? then |arxiv.value| else 0
    ensures forall i :: 0 <= i < |rs| ==> rs[i] == FromArxiv(arxiv.value[i], query)
  {
    if arxiv.Err? then []
    else seq(|arxiv.value|, i requires 0 <= i < |arxiv.value| => FromArxiv(arxiv.value[i], query))
  }

  /** The converted Semantic Scholar records, none when the source failed. */
  function S2Records(query: string, s2: Result<seq<SemanticScholar.S2Paper>, SourceError>): (rs: seq<SearchResult>)
    ensures |rs| == if s2.Ok? then |s2.value| else 0
    ensures forall i :: 0 <= i < |rs| ==> rs[i] == FromSemanticScholar(s2.value[i], query)
  {
    if s2.Err? then []
    else seq(|s2.value|, i requires 0 <= i < |s2.value| => FromSemanticScholar(s2.value[i], query))
  }

  /** What `search` returns, given what each source returned. */
  function Results(query: string, maxResults: int, arxiv: Result<seq<ArxivClient.ArxivPaper>, SourceError>,
                   s2: Result<seq<SemanticScholar.S2Paper>, SourceError>): seq<SearchResult> {
    Take(Rank(Dedup(Gathered(query, arxiv, s2))), maxResults)
  }

  /**
    At most `max_results` records come back, each one a converted record of one of the sources,
    in ranked order; when both sources fail nothing comes back. (That the deduplicated list has no
    two similar titles is `DedupNoSimilarPair`.)
   */
  lemma ResultsShape(query: string, maxResults: int, arxiv: Result<seq<ArxivClient.ArxivPaper>, SourceError>,
                     s2: Result<seq<SemanticScholar.S2Paper>, SourceError>)
    ensures var r := Results(query, maxResults, arxiv, s2);
      (maxResults >= 0 ==> |r| <= maxResults) &&
      (arxiv.Err? && s2.Err? ==> r == []) &&
      (forall x :: x in r ==> x in Gathered(query, arxiv, s2)) &&
      Ranked(r)
  {
    var all := Gathered(query, arxiv, s2);
    var d := Dedup(all);
    var ranked := Rank(d);
    var r := Take(ranked, maxResults);
    DedupSubsequence(all);
    SubsequenceMembers(d, all);
    RankRanked(d);
    RankedPrefix(ranked, r);
    forall x | x in r ensures x in all {
      PrefixMember(ranked, r, x);
      RankMember(d, x);
    }
  }

  lemma RankedPrefix(s: seq<SearchResult>, r: seq<SearchResult>)
    requires Ranked(s) && r <= s
    ensures Ranked(r)
  {
    forall i, j | 0 <= i < j < |r| ensures !Ahead(r[j], r[i]) {
      assert r[i] == s[i] && r[j] == s[j];
    }
  }

  lemma PrefixMember(s: seq<SearchResult>, r: seq<SearchResult>, x: SearchResult)
    requires r <= s && x in r
    ensures x in s
  {
    var i :| 0 <= i < |r| && r[i] == x;
    assert s[i] == x;
  }

  /** Every ranked record is one of the input's. */
  lemma RankMember(rs: seq<SearchResult>, x: SearchResult)
    requires x in Rank(rs)
    ensures x in rs
  {
    RankPermutes(rs);
    assert x in multiset(Rank(rs));
  }

  class RealAcademicSearch {
    const maxResults: int
    const semanticScholar: SemanticScholar.SemanticScholarClient

    constructor(maxResults: int, apiKey: Option<string>)
      ensures this.maxResults == maxResults
      ensures fresh(semanticScholar)
      ensures semanticScholar.apiKey == apiKey && semanticScholar.lastRequestTime == 0
      ensures semanticScholar.minRequestInterval == SemanticScholar.IntervalFor(apiKey)
    {
      this.maxResults := maxResults;
      semanticScholar := new SemanticScholar.SemanticScholarClient(apiKey);
    }

    /**
      `search`: each source is asked for `max_results // 2` records (Dafny's `/` by 2 rounds
      down like `//`); a failing source contributes nothing.
     */
    method Search(query: string, arxivResponse: ArxivClient.Response,
                  s2Transport: seq<SemanticScholar.S2Outcome>, clock: Clock)
      returns (r: seq<SearchResult>, arxivRequest: ArxivClient.Request, s2Sent: seq<SemanticScholar.SearchParams>)
      requires clock.Valid()
      modifies semanticScholar, clock
      ensures clock.Valid()
      ensures arxivRequest == ArxivClient.SearchRequest(query, maxResults / 2)
      ensures |s2Sent| == SemanticScholar.Exchange(s2Transport).gets
      ensures forall k :: 0 <= k < |s2Sent| ==>
        s2Sent[k] == SemanticScholar.SearchParams(query, SemanticScholar.Limit(maxResults / 2), SemanticScholar.SearchFields)
      ensures r == Results(query, maxResults, ArxivClient.Search(arxivResponse), SemanticScholar.Exchange(s2Transport).result)
      ensures clock.sleeps == old(clock.sleeps) +
        SemanticScholar.SearchSleeps(old(clock.now), old(semanticScholar.lastRequestTime), semanticScholar.minRequestInterval, s2Transport)
      ensures semanticScholar.lastRequestTime ==
        SemanticScholar.ResumeTime(old(clock.now), old(semanticScholar.lastRequestTime), semanticScholar.minRequestInterval)
    {
      var allResults: seq<SearchResult> := [];
      arxivRequest := ArxivClient.SearchRequest(query, maxResults / 2);
      var arxivPapers := ArxivClient.Search(arxivResponse);
      if arxivPapers.Ok? {
        allResults := allResults + ArxivRecords(query, arxivPapers);
      }
      assert allResults == ArxivRecords(query, arxivPapers);
      var s2Papers;
      s2Papers, s2Sent := semanticScholar.Search(query, maxResults / 2, s2Transport, clock);
      if s2Papers.Ok? {
        allResults := allResults + S2Records(query, s2Papers);
      }
      assert allResults == Gathered(query, arxivPapers, s2Papers);
      var deduplicated := DeduplicateResults(allResults);
      r := Take(Rank(deduplicated), maxResults);
    }
  }
}
