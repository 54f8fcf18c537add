/**
  The Semantic Scholar client: a rate limiter that keeps consecutive requests at least a minimum
  interval apart, a paper search that waits out one HTTP 429 answer (RFC 6585, section 4) for
  the `Retry-After` delay of RFC 9110, section 10.2.3, and the parsing of decoded JSON records
  with field defaults.

  The HTTP session is a sequence of outcomes, one per GET in order (a GET past its end raises);
  `time.time` and `time.sleep` are a millisecond `Clock`.
 */
module SemanticScholar {
  import opened Wrappers
  import opened Text
  import opened Seqs
  import opened Json
  import opened Http
  import opened Clocks

  // ---------------------------------------------------------------- records

  /** `SemanticScholarPaper`; the fields copied from the JSON unchecked stay JSON values. */
  datatype S2Paper = S2Paper(
    title: string,
    authors: seq<Json>,
    abstractText: string,
    year: int,
    venue: string,
    citationCount: int,
    paperId: Json,
    url: Json,
    doi: Json,
    fieldsOfStudy: seq<string>)

  const NoAbstract := "No abstract available"
  const UnknownVenue := "Unknown Venue"
  const DefaultYear := 2024

  /**
    `item.get(key, "").strip()`: a missing key reads as "", a string is stripped, and any other
    value (JSON null included) raises AttributeError, which is None here.
   */
  function StrippedField(fields: seq<(string, Json)>, key: string): Option<string> {
    match Get(fields, key)
    case None => Some("")
    case Some(JStr(s)) => Some(Strip(s))
    case Some(_) => None
  }

  /** What one element of `authors` contributes: a dict's `"name"` entry, or a bare string. */
  function AuthorOf(a: Json): Option<Json> {
    match a
    case JObj(fs) => Get(fs, "name")
    case JStr(_) => Some(a)
    case _ => None
  }

  /** The strings of a list comprehension filtered by `isinstance(field, str)`. */
  function StringOf(v: Json): Option<string> {
    match v
    case JStr(s) => Some(s)
    case _ => None
  }

  /** The authors of a record; None when a truthy `authors` value cannot be iterated (TypeError). */
  function AuthorsOf(fields: seq<(string, Json)>): Option<seq<Json>> {
    var list := GetOrDefault(fields, "authors", JArr([]));
    if !Truthy(list) then Some([])
    else match Iterate(list)
      case None => None
      case Some(items) => Some(FilterMap(items, AuthorOf))
  }

  /** A truthy `int` year (a boolean is one), or the default. */
  function YearOf(v: Option<Json>): int {
    match v
    case Some(JInt(n)) => if n != 0 then n else DefaultYear
    case Some(JBool(b)) => if b then 1 else DefaultYear
    case _ => DefaultYear
  }

  /** The citation count when it is an `int`, unclamped; 0 otherwise. */
  function CitationsOf(fields: seq<(string, Json)>): int {
    var c := GetOrDefault(fields, "citationCount", JInt(0));
    if IsInt(c) then IntValue(c) else 0
  }

  /** `externalIds["DOI"]`, read only from a non-empty dict. */
  function DoiOf(fields: seq<(string, Json)>): Json {
    var ids := GetOrDefault(fields, "externalIds", JObj([]));
    if Truthy(ids) && ids.JObj? then GetOrDefault(ids.fields, "DOI", JNull) else JNull
  }

  /** The string entries of a non-empty list `fieldsOfStudy`. */
  function FieldsOfStudyOf(fields: seq<(string, Json)>): seq<string> {
    var fs := GetOrDefault(fields, "fieldsOfStudy", JArr([]));
    if Truthy(fs) && fs.JArr? then FilterMap(fs.elems, StringOf) else []
  }

  /**
    `_parse_paper`: None when the item is not a dict, when its stripped title is empty, or when
    anything raises on the way (a non-string title, abstract or venue, an `authors` value that
    cannot be iterated); the exception is caught and the record dropped.
   */
  function PaperOf(item: Json): Option<S2Paper> {
    match item
    case JObj(fields) =>
      var title := StrippedField(fields, "title");
      var authors := AuthorsOf(fields);
      var abstractText := StrippedField(fields, "abstract");
      var venue := StrippedField(fields, "venue");
      if title.None? || title.value == [] || authors.None? || abstractText.None? || venue.None? then None
      else
        Some(S2Paper(
          title.value,
          authors.value,
          if abstractText.value == [] then NoAbstract else abstractText.value,
          YearOf(Get(fields, "year")),
          if venue.value == [] then UnknownVenue else venue.value,
          CitationsOf(fields),
          GetOrDefault(fields, "paperId", JStr("")),
          GetOrDefault(fields, "url", JNull),
          DoiOf(fields),
          FieldsOfStudyOf(fields)))
    case _ => None
  }

  /** `_parse_paper`, reading the fields one after the other and collecting authors in a loop. */
  method ParsePaper(item: Json) returns (r: Option<S2Paper>)
    ensures r == PaperOf(item)
  {
    if !item.JObj? {
      return None;
    }
    var fields := item.fields;
    var title := StrippedField(fields, "title");
    if title.None? || title.value == [] {
      return None;
    }
    var authors: seq<Json> := [];
    var authorList := GetOrDefault(fields, "authors", JArr([]));
    if Truthy(authorList) {
      var items := Iterate(authorList);
      if items.None? {
        return None;
      }
      authors := CollectAuthors(items.value);
    }
    assert AuthorsOf(fields) == Some(authors);
    var abstractText := StrippedField(fields, "abstract");
    if abstractText.None? {
      return None;
    }
    var summary := abstractText.value;
    if summary == [] {
      summary := NoAbstract;
    }
    var year := YearOf(Get(fields, "year"));
    var venue := StrippedField(fields, "venue");
    if venue.None? {
      return None;
    }
    var place := venue.value;
    if place == [] {
      place := UnknownVenue;
    }
    var citations := GetOrDefault(fields, "citationCount", JInt(0));
    var citationCount := if IsInt(citations) then IntValue(citations) else 0;
    r := Some(S2Paper(title.value, authors, summary, year, place, citationCount,
      GetOrDefault(fields, "paperId", JStr("")), GetOrDefault(fields, "url", JNull),
      DoiOf(fields), FieldsOfStudyOf(fields)));
  }

  /** The author loop of `_parse_paper`: each dict's `"name"` when it has one, and each string. */
  method CollectAuthors(items: seq<Json>) returns (authors: seq<Json>)
    ensures authors == FilterMap(items, AuthorOf)
  {
    authors := [];
    var i := 0;
    while i < |items|
      invariant 0 <= i <= |items|
      invariant authors == FilterMap(items[..i], AuthorOf)
    {
      FilterMapSnoc(items, AuthorOf, i);
      var author := items[i];
      if author.JObj? && Get(author.fields, "name").Some? {
        authors := authors + [Get(author.fields, "name").value];
      } else if author.JStr? {
        authors := authors + [author];
      }
      i := i + 1;
    }
    assert items[..i] == items;
  }

  /** The value under `key` is absent or a string, so `.strip()` does not raise on it. */
  predicate StringOrAbsent(fields: seq<(string, Json)>, key: string) {
    Get(fields, key).None? || Get(fields, key).value.JStr?
  }

  /** The record has a title with a character that is not whitespace. */
  predicate HasTitle(fields: seq<(string, Json)>) {
    Get(fields, "title").Some? && Get(fields, "title").value.JStr? && NonBlank(Get(fields, "title").value.s)
  }

  /** `authors` is falsy or can be iterated. */
  predicate IterableAuthors(fields: seq<(string, Json)>) {
    var list := GetOrDefault(fields, "authors", JArr([]));
    !Truthy(list) || list.JArr? || list.JObj? || list.JStr?
  }

  /** Exactly the dicts with a non-blank string title and string-or-absent abstract and venue are kept. */
  lemma PaperOfKept(item: Json)
    ensures PaperOf(item).Some? <==>
      item.JObj? && HasTitle(item.fields) && IterableAuthors(item.fields) &&
      StringOrAbsent(item.fields, "abstract") && StringOrAbsent(item.fields, "venue")
  {
  }

  /** A JSON null title, abstract or venue drops the whole record rather than defaulting it. */
  lemma NullFieldDropsRecord(fields: seq<(string, Json)>, key: string)
    requires key == "title" || key == "abstract" || key == "venue"
    requires Get(fields, key) == Some(JNull)
    ensures PaperOf(JObj(fields)) == None
  {
  }

  /** The title is the stripped title; the abstract and venue are stripped or defaulted when empty. */
  lemma PaperOfText(fields: seq<(string, Json)>)
    requires PaperOf(JObj(fields)).Some?
    ensures var p := PaperOf(JObj(fields)).value;
      p.title == Strip(Get(fields, "title").value.s) && p.title != [] &&
      (Get(fields, "abstract").None? ==> p.abstractText == NoAbstract) &&
      (Get(fields, "abstract").Some? ==>
        p.abstractText == if NonBlank(Get(fields, "abstract").value.s) then Strip(Get(fields, "abstract").value.s) else NoAbstract) &&
      (Get(fields, "venue").None? ==> p.venue == UnknownVenue) &&
      (Get(fields, "venue").Some? ==>
        p.venue == if NonBlank(Get(fields, "venue").value.s) then Strip(Get(fields, "venue").value.s) else UnknownVenue)
  {
    PaperOfKept(JObj(fields));
  }

  /** A non-zero integer year is kept; a missing, zero, false or non-integer year becomes 2024. */
  lemma PaperOfYear(fields: seq<(string, Json)>)
    requires PaperOf(JObj(fields)).Some?
    ensures var y := Get(fields, "year");
      var p := PaperOf(JObj(fields)).value;
      (y.Some? && y.value.JInt? && y.value.i != 0 ==> p.year == y.value.i) &&
      (y == Some(JBool(true)) ==> p.year == 1) &&
      (!(y.Some? && y.value.JInt? && y.value.i != 0) && y != Some(JBool(true)) ==> p.year == DefaultYear)
  {
  }

  /** An integer citation count passes through, negative ones included; anything else but a boolean is 0. */
  lemma PaperOfCitations(fields: seq<(string, Json)>)
    requires PaperOf(JObj(fields)).Some?
    ensures var c := Get(fields, "citationCount");
      var p := PaperOf(JObj(fields)).value;
      (c.Some? && c.value.JInt? ==> p.citationCount == c.value.i) &&
      (c.Some? && !IsInt(c.value) ==> p.citationCount == 0) &&
      (c.None? ==> p.citationCount == 0)
  {
  }

  /** A kept record's authors, DOI and fields of study are those the record's own values give. */
  lemma PaperOfParts(fields: seq<(string, Json)>)
    requires PaperOf(JObj(fields)).Some?
    ensures AuthorsOf(fields).Some? && PaperOf(JObj(fields)).value.authors == AuthorsOf(fields).value
    ensures PaperOf(JObj(fields)).value.doi == DoiOf(fields)
    ensures PaperOf(JObj(fields)).value.fieldsOfStudy == FieldsOfStudyOf(fields)
  {
  }

  /**
    A list of authors contributes exactly its dicts' names and its strings; the list's other
    elements are dropped.
   */
  lemma AuthorsOfList(fields: seq<(string, Json)>, items: seq<Json>, a: Json)
    requires Get(fields, "authors") == Some(JArr(items))
    ensures AuthorsOf(fields).Some?
    ensures a in AuthorsOf(fields).value <==>
      exists i :: 0 <= i < |items| && ((items[i] == a && a.JStr?) || (items[i].JObj? && Get(items[i].fields, "name") == Some(a)))
  {
    FilterMapExactly(items, AuthorOf, a);
    if a in AuthorsOf(fields).value {
      var i :| 0 <= i < |items| && AuthorOf(items[i]) == Some(a);
      assert (items[i] == a && a.JStr?) || (items[i].JObj? && Get(items[i].fields, "name") == Some(a));
    }
  }

  /** `fields_of_study` keeps exactly the strings of a list, and is empty for anything else. */
  lemma FieldsOfStudyExactly(fields: seq<(string, Json)>, s: string)
    ensures var f := Get(fields, "fieldsOfStudy");
      s in FieldsOfStudyOf(fields) <==> f.Some? && f.value.JArr? && JStr(s) in f.value.elems
  {
    var f := GetOrDefault(fields, "fieldsOfStudy", JArr([]));
    if Truthy(f) && f.JArr? {
      FilterMapExactly(f.elems, StringOf, s);
      if JStr(s) in f.elems {
        var i :| 0 <= i < |f.elems| && f.elems[i] == JStr(s);
        assert StringOf(f.elems[i]) == Some(s);
      }
    }
  }

  /** The DOI comes only from a non-empty dict `externalIds`, from its `"DOI"` entry. */
  lemma DoiOnlyFromDict(fields: seq<(string, Json)>)
    ensures DoiOf(fields) != JNull ==>
      Get(fields, "externalIds").Some? && Get(fields, "externalIds").value.JObj? &&
      Get(Get(fields, "externalIds").value.fields, "DOI") == Some(DoiOf(fields))
  {
  }

  // ---------------------------------------------------------------- responses

  /**
    `_parse_response`: a body without `"data"` gives no records; otherwise every element of
    `data` goes through `_parse_paper` and the records kept are returned in order. A body or a
    `data` value Python cannot treat that way raises TypeError, which `search` reports as a
    ValueError.
   */
  function ResponsePapers(body: Json): Result<seq<S2Paper>, SourceError> {
    match HasMember(body, "data")
    case None => Err(ParseError)
    case Some(false) => Ok([])
    case Some(true) =>
      if !body.JObj? then Err(ParseError)
      else match Iterate(Get(body.fields, "data").value)
        case None => Err(ParseError)
        case Some(items) => Ok(FilterMap(items, PaperOf))
  }

  /** `_parse_response`: the loop over `data`, keeping what `_parse_paper` returns. */
  method ParseResponse(body: Json) returns (r: Result<seq<S2Paper>, SourceError>)
    ensures r == ResponsePapers(body)
  {
    var member := HasMember(body, "data");
    if member.None? || (member.value && !body.JObj?) {
      return Err(ParseError);
    }
    if !member.value {
      return Ok([]);
    }
    var items := Iterate(Get(body.fields, "data").value);
    if items.None? {
      return Err(ParseError);
    }
    var papers: seq<S2Paper> := [];
    var i := 0;
    while i < |items.value|
      invariant 0 <= i <= |items.value|
      invariant papers == FilterMap(items.value[..i], PaperOf)
    {
      FilterMapSnoc(items.value, PaperOf, i);
      var paper := ParsePaper(items.value[i]);
      if paper.Some? {
        papers := papers + [paper.value];
      }
      i := i + 1;
    }
    assert items.value[..i] == items.value;
    return Ok(papers);
  }

  /** A dict without `"data"`, or with an empty `data` list, gives no records. */
  lemma NoDataNoPapers(fields: seq<(string, Json)>)
    requires Get(fields, "data").None? || Get(fields, "data") == Some(JArr([]))
    ensures ResponsePapers(JObj(fields)) == Ok([])
  {
  }

  /**
    With a `data` list, the records are exactly those of the elements `_parse_paper` keeps;
    records of later elements come after those of earlier ones.
   */
  lemma ResponsePapersExactly(fields: seq<(string, Json)>, items: seq<Json>, p: S2Paper)
    requires Get(fields, "data") == Some(JArr(items))
    ensures ResponsePapers(JObj(fields)).Ok?
    ensures p in ResponsePapers(JObj(fields)).value <==> exists i :: 0 <= i < |items| && PaperOf(items[i]) == Some(p)
    ensures forall k :: 0 <= k <= |items| ==>
      ResponsePapers(JObj(fields)).value == FilterMap(items[..k], PaperOf) + FilterMap(items[k..], PaperOf)
  {
    assert HasMember(JObj(fields), "data") == Some(true);
    assert ResponsePapers(JObj(fields)) == Ok(FilterMap(items, PaperOf));
    FilterMapExactly(items, PaperOf, p);
    FilterMapSplit(items, PaperOf);
  }

  // ---------------------------------------------------------------- client state

  const UserAgent := "DSPy-Paper-Reviewer/1.0 (https://github.com/dspy-paper-reviewer)"

  /** Python truthiness of the optional API key. */
  predicate HasKey(apiKey: Option<string>) {
    apiKey.Some? && apiKey.value != []
  }

  /** The headers the client adds to its session: the user agent, and the key only when it is truthy. */
  function HeadersFor(apiKey: Option<string>): (h: map<string, string>)
    ensures h.Keys == if HasKey(apiKey) then {"User-Agent", "x-api-key"} else {"User-Agent"}
    ensures h["User-Agent"] == UserAgent
    ensures HasKey(apiKey) ==> h["x-api-key"] == apiKey.value
  {
    var base := map["User-Agent" := UserAgent];
    if HasKey(apiKey) then base["x-api-key" := apiKey.value] else base
  }

  /** The minimum interval between requests, in milliseconds: 3 s on the free tier, 0.1 s with a key. */
  function IntervalFor(apiKey: Option<string>): (ms: nat)
    ensures ms == 3000 <==> !HasKey(apiKey)
    ensures ms == 100 <==> HasKey(apiKey)
  {
    if HasKey(apiKey) then 100 else 3000
  }

  /** What `_wait_for_rate_limit` sleeps when `elapsed` ms have passed since the last request. */
  function RateLimitSleeps(elapsed: int, interval: int): seq<int> {
    if elapsed < interval then [interval - elapsed] else []
  }

  /**
    The sleeps of one search made at time `now` after a request at `lastRequest`: the rate-limit
    wait, then the wait after a 429 if there is one.
   */
  function SearchSleeps(now: int, lastRequest: int, interval: int, transport: seq<S2Outcome>): seq<int> {
    RateLimitSleeps(now - lastRequest, interval) + Exchange(transport).retrySleeps
  }

  /** The time a request made at `now` after one at `lastRequest` records: the end of the rate-limit wait. */
  function ResumeTime(now: int, lastRequest: int, interval: int): int {
    now + Total(RateLimitSleeps(now - lastRequest, interval))
  }

  /** The limiter sleeps at most once, a positive amount, and just enough to reach the interval. */
  lemma RateLimitGap(elapsed: int, interval: int)
    ensures |RateLimitSleeps(elapsed, interval)| <= 1
    ensures forall k :: 0 <= k < |RateLimitSleeps(elapsed, interval)| ==> RateLimitSleeps(elapsed, interval)[k] > 0
    ensures elapsed + Total(RateLimitSleeps(elapsed, interval)) >= interval
    ensures elapsed + Total(RateLimitSleeps(elapsed, interval)) == if elapsed < interval then interval else elapsed
  {
    assert Total([]) == 0;
    if elapsed < interval {
      assert [interval - elapsed][..0] == [];
    }
  }

  // ---------------------------------------------------------------- search

  /** The `Retry-After` header of a 429 answer: missing, an integer, or text `int()` rejects. */
  datatype RetryAfter = Absent | Seconds(n: int) | Unparsable

  /** What one GET produced: a raised RequestException, or an answer whose body decoded (or not) as JSON. */
  datatype S2Outcome = Raised | Answered(status: int, retryAfter: RetryAfter, body: Option<Json>)

  /** The outcome of the GET numbered `k`; the transport raises once its outcomes run out. */
  function OutcomeAt(transport: seq<S2Outcome>, k: nat): S2Outcome {
    if k < |transport| then transport[k] else Raised
  }

  const DefaultRetryAfter := 60

  /**
    The whole number of seconds beyond which `time.sleep` raises OverflowError: it converts its
    argument to signed 64-bit nanoseconds, and 2^63 - 1 of them is the limit. It is an upper bound,
    not the range the call accepts: the monotonic deadline `time.sleep` computes can overflow for
    values just below it, which raises OSError; the model does not track that clock.
   */
  const MaxSleepSeconds := 9223372036

  /**
    The seconds to wait before the retry; None when `int()` rejects the header, or when
    `time.sleep` rejects the value (ValueError when negative, OverflowError when too large).
    The search reports each of these as a ValueError.
   */
  function RetryDelay(ra: RetryAfter): Option<nat> {
    match ra
    case Absent => Some(DefaultRetryAfter)
    case Seconds(n) => if 0 <= n <= MaxSleepSeconds then Some(n) else None
    case Unparsable => None
  }

  /** A delay is usable exactly when it is a whole number of seconds from 0 up to the OverflowError bound. */
  lemma RetryDelayRange(ra: RetryAfter)
    ensures RetryDelay(ra).Some? ==> 0 <= RetryDelay(ra).value <= MaxSleepSeconds
    ensures ra.Seconds? ==> (RetryDelay(ra).Some? <==> 0 <= ra.n <= MaxSleepSeconds)
    ensures ra.Unparsable? ==> RetryDelay(ra).None?
  {
  }

  /** The answer asks to slow down and says for how long in a form the client accepts. */
  predicate RetriesAfter(o: S2Outcome) {
    o.Answered? && o.status == 429 && RetryDelay(o.retryAfter).Some?
  }

  /** The answer the search ends on: `raise_for_status`, `response.json()` and `_parse_response`. */
  function Finish(o: S2Outcome): Result<seq<S2Paper>, SourceError> {
    match o
    case Raised => Err(RequestError)
    case Answered(status, _, body) =>
      if ErrorStatus(status) || body.None? then Err(RequestError) else ResponsePapers(body.value)
  }

  /** What a search amounts to: its result, the number of GETs, and the sleeps for the retry. */
  datatype Exchanged = Exchanged(result: Result<seq<S2Paper>, SourceError>, gets: nat, retrySleeps: seq<int>)

  /** The exchange with the server after the rate limiter: one GET, and a second after a 429. */
  function Exchange(transport: seq<S2Outcome>): Exchanged {
    var first := OutcomeAt(transport, 0);
    if first.Answered? && first.status == 429 then
      match RetryDelay(first.retryAfter)
      case None => Exchanged(Err(ParseError), 1, [])
      case Some(s) => Exchanged(Finish(OutcomeAt(transport, 1)), 2, [1000 * s])
    else Exchanged(Finish(first), 1, [])
  }

  /**
    A search makes one GET, or two when the first is a 429 with a usable `Retry-After`; it then
    sleeps that many seconds once and never retries again.
   */
  lemma ExchangeRetriesOnce(transport: seq<S2Outcome>)
    ensures var x := Exchange(transport);
      (x.gets == 2 <==> RetriesAfter(OutcomeAt(transport, 0))) &&
      (x.gets == 1 <==> !RetriesAfter(OutcomeAt(transport, 0))) &&
      (x.gets == 2 ==> x.retrySleeps == [1000 * RetryDelay(OutcomeAt(transport, 0).retryAfter).value]) &&
      (x.gets == 1 ==> x.retrySleeps == [])
  {
  }

  /** A 429 without `Retry-After` waits 60 seconds; a failing retry is a RequestException. */
  lemma RetryAfterDefault(transport: seq<S2Outcome>)
    requires OutcomeAt(transport, 0).Answered? && OutcomeAt(transport, 0).status == 429
    requires OutcomeAt(transport, 0).retryAfter == Absent
    ensures Exchange(transport).retrySleeps == [60000]
    ensures OutcomeAt(transport, 1).Raised? || ErrorStatus(OutcomeAt(transport, 1).status) ==>
      Exchange(transport).result == Err(RequestError)
  {
  }

  /**
    After a 429 with a usable `Retry-After`, the second answer decides, as the first does without
    a 429: a transport failure, an error status or an undecodable body is a RequestException,
    otherwise the body's papers; the one sleep is the header's delay.
   */
  lemma RetryOutcome(transport: seq<S2Outcome>)
    requires RetriesAfter(OutcomeAt(transport, 0))
    ensures Exchange(transport).retrySleeps == [1000 * RetryDelay(OutcomeAt(transport, 0).retryAfter).value]
    ensures OutcomeAt(transport, 1).Raised? || ErrorStatus(OutcomeAt(transport, 1).status) ==>
      Exchange(transport).result == Err(RequestError)
    ensures var o := OutcomeAt(transport, 1);
      o.Answered? && o.body.None? ==> Exchange(transport).result == Err(RequestError)
    ensures var o := OutcomeAt(transport, 1);
      o.Answered? && !ErrorStatus(o.status) && o.body.Some? ==> Exchange(transport).result == ResponsePapers(o.body.value)
  {
  }

  /**
    A 429 whose `Retry-After` the client cannot sleep on (not an integer, negative, or too large
    for `time.sleep`) ends the search with a ValueError after one GET and no sleep.
   */
  lemma RetryAfterRejected(transport: seq<S2Outcome>)
    requires OutcomeAt(transport, 0).Answered? && OutcomeAt(transport, 0).status == 429
    requires match OutcomeAt(transport, 0).retryAfter
      case Seconds(n) => n < 0 || n > MaxSleepSeconds
      case Unparsable => true
      case Absent => false
    ensures Exchange(transport) == Exchanged(Err(ParseError), 1, [])
  {
  }

  /** Without a 429, the first answer decides: a transport failure or an error status is a RequestException. */
  lemma NoRetryOtherwise(transport: seq<S2Outcome>)
    requires !(OutcomeAt(transport, 0).Answered? && OutcomeAt(transport, 0).status == 429)
    ensures Exchange(transport).gets == 1
    ensures OutcomeAt(transport, 0).Raised? || ErrorStatus(OutcomeAt(transport, 0).status) ==>
      Exchange(transport).result == Err(RequestError)
    ensures var o := OutcomeAt(transport, 0);
      o.Answered? && !ErrorStatus(o.status) && o.body.Some? ==> Exchange(transport).result == ResponsePapers(o.body.value)
  {
  }

  const SearchFields := "title,authors,abstract,year,venue,citationCount,paperId,url,externalIds,fieldsOfStudy"

  /** The query parameters of a search request. */
  datatype SearchParams = SearchParams(query: string, limit: int, fields: string)

  /** `min(max_results, 100)`: the API returns at most 100 records per request. */
  function Limit(maxResults: int): (n: int)
    ensures n <= 100 && n <= maxResults
    ensures n == 100 || n == maxResults
  {
    if maxResults < 100 then maxResults else 100
  }

  /** The GET that fetches one paper: its identifier and the fields asked for. */
  datatype DetailsRequest = DetailsRequest(paperId: string, fields: string)

  /** `get_paper_details` once the GET is done: not found, a failure or an undecodable body give None. */
  function Details(o: S2Outcome): Option<S2Paper> {
    match o
    case Raised => None
    case Answered(status, _, body) =>
      if status == 404 then None
      else if ErrorStatus(status) || body.None? then None
      else PaperOf(body.value)
  }

  /** A 404, a transport failure or an error status gives no record; otherwise the body is parsed as a record. */
  lemma DetailsOutcomes(o: S2Outcome)
    ensures o.Raised? ==> Details(o) == None
    ensures o.Answered? && (o.status == 404 || ErrorStatus(o.status)) ==> Details(o) == None
    ensures Details(o).Some? ==> o.Answered? && !ErrorStatus(o.status) && o.body.Some? && PaperOf(o.body.value) == Details(o)
  {
  }

  class SemanticScholarClient {
    const apiKey: Option<string>
    /** The headers this client adds to every request. */
    const headers: map<string, string>
    /** The minimum time between two requests, in milliseconds. */
    const minRequestInterval: nat
    /** The clock reading right after the last rate-limit wait, 0 before the first. */
    var lastRequestTime: int

    constructor(apiKey: Option<string>)
      ensures this.apiKey == apiKey
      ensures headers == HeadersFor(apiKey)
      ensures minRequestInterval == IntervalFor(apiKey)
      ensures lastRequestTime == 0
    {
      this.apiKey := apiKey;
      headers := HeadersFor(apiKey);
      minRequestInterval := IntervalFor(apiKey);
      lastRequestTime := 0;
    }

    /**
      `_wait_for_rate_limit`: sleeps the rest of the interval when too little time has passed,
      then records the time; so consecutive gated requests are at least the interval apart.
     */
    method WaitForRateLimit(clock: Clock)
      requires clock.Valid()
      modifies this, clock
      ensures clock.Valid()
      ensures clock.sleeps == old(clock.sleeps) + RateLimitSleeps(old(clock.now) - old(lastRequestTime), minRequestInterval)
      ensures clock.now == old(clock.now) + Total(RateLimitSleeps(old(clock.now) - old(lastRequestTime), minRequestInterval))
      ensures lastRequestTime == clock.now
      ensures lastRequestTime >= old(lastRequestTime) + minRequestInterval
      ensures clock.now >= old(clock.now)
    {
      RateLimitGap(clock.now - lastRequestTime, minRequestInterval);
      var elapsed := clock.now - lastRequestTime;
      if elapsed < minRequestInterval {
        clock.Sleep(minRequestInterval - elapsed);
      }
      lastRequestTime := clock.now;
    }

    /**
      `search`: the rate limiter, then the exchange; the requests sent all carry the capped limit.
     */
    method Search(query: string, maxResults: int, transport: seq<S2Outcome>, clock: Clock)
      returns (r: Result<seq<S2Paper>, SourceError>, sent: seq<SearchParams>)
      requires clock.Valid()
      modifies this, clock
      ensures clock.Valid()
      ensures r == Exchange(transport).result
      ensures |sent| == Exchange(transport).gets
      ensures forall k :: 0 <= k < |sent| ==> sent[k] == SearchParams(query, Limit(maxResults), SearchFields)
      ensures clock.sleeps == old(clock.sleeps) + SearchSleeps(old(clock.now), old(lastRequestTime), minRequestInterval, transport)
      ensures lastRequestTime == ResumeTime(old(clock.now), old(lastRequestTime), minRequestInterval)
      ensures lastRequestTime >= old(lastRequestTime) + minRequestInterval
    {
      WaitForRateLimit(clock);
      ghost var waited := clock.sleeps;
      var params := SearchParams(query, Limit(maxResults), SearchFields);
      sent := [params];
      var response := OutcomeAt(transport, 0);
      if response.Answered? && response.status == 429 {
        var delay := RetryDelay(response.retryAfter);
        if delay.None? {
          assert Exchange(transport) == Exchanged(Err(ParseError), 1, []);
          return Err(ParseError), sent;
        }
        assert Exchange(transport) == Exchanged(Finish(OutcomeAt(transport, 1)), 2, [1000 * delay.value]);
        clock.Sleep(1000 * delay.value);
        sent := sent + [params];
        response := OutcomeAt(transport, 1);
      } else {
        assert Exchange(transport) == Exchanged(Finish(response), 1, []);
      }
      if response.Raised? || ErrorStatus(response.status) || response.body.None? {
        return Err(RequestError), sent;
      }
      r := ParseResponse(response.body.value);
    }

    /** `get_paper_details`: the rate limiter, one GET, and the outcome mapped to an optional record. */
    method GetPaperDetails(paperId: string, transport: seq<S2Outcome>, clock: Clock)
      returns (r: Option<S2Paper>, sent: DetailsRequest)
      requires clock.Valid()
      modifies this, clock
      ensures clock.Valid()
      ensures r == Details(OutcomeAt(transport, 0))
      ensures sent == DetailsRequest(paperId, SearchFields)
      ensures clock.sleeps == old(clock.sleeps) + RateLimitSleeps(old(clock.now) - old(lastRequestTime), minRequestInterval)
      ensures lastRequestTime == clock.now == ResumeTime(old(clock.now), old(lastRequestTime), minRequestInterval)
      ensures lastRequestTime >= old(lastRequestTime) + minRequestInterval
    {
      WaitForRateLimit(clock);
      sent := DetailsRequest(paperId, SearchFields);
      var response := OutcomeAt(transport, 0);
      if response.Raised? || response.status == 404 || ErrorStatus(response.status) || response.body.None? {
        return None, sent;
      }
      r := ParsePaper(response.body.value);
    }
  }
}
