# Martin paper reviewer: ingestion core in Dafny

This project models the ingestion core of the Martin paper reviewer. That core turns two kinds of
untrusted input into bounded, typed records:

- **PDF papers.** The PDF extractor validates the URL, downloads with retries and exponential
  backoff, and reads the text of every page. It then cleans the text and cuts it into six
  sections (abstract, introduction, methodology, results, conclusion, references) by
  header-pattern matching, and builds a `PaperText` record.
- **Literature search.** The arXiv client builds an Atom query and parses the feed. The Semantic
  Scholar client enforces its rate limit, retries once after HTTP 429, and parses the JSON. The
  real academic search engine converts both kinds of record, scores their relevance to the
  query, removes titles that are near-duplicates, ranks the rest and truncates the list.

Module layout, one module per source file plus shared pieces:

| module | file | flavour |
|---|---|---|
| `PaperTextRecord` | paper_text.dfy | the record and its queries (functions); `get_main_content` as a method |
| `PdfExtractor` | pdf_extractor.dfy | every loop of the extractor as a method proved against a function |
| `Headers` | headers.dfy | the header regexes and the next-section regexes, as hand-written matchers |
| `ArxivClient` | arxiv_client.dfy | query preparation and entry/feed parsing, as methods over functions |
| `SemanticScholar` | semantic_scholar_client.dfy | the client as a `class` with its rate-limit field, over a `Clock` |
| `RealAcademicSearch` | real_academic_search.dfy | conversion, relevance, dedup (method and function), stable ranking |
| `Text`, `Json`, `Seqs`, `Http`, `Clocks`, `Wrappers` | text.dfy, json.dfy, … | Python `str` operations, decoded JSON values, sequence lemmas, clock |

The outside world enters only as parameters:

- A download is a sequence of transport outcomes, one per `GET`; reading past the end is a
  transport error.
- The PDF reader is a function from bytes to a document (unreadable, or encrypted flag plus
  per-page text, `None` for a page whose extraction raised).
- `urlparse` is its result (scheme and netloc, or a parse failure).
- An Atom feed is its parsed entries (or malformed).
- A Semantic Scholar response is its status, `Retry-After` header and decoded JSON body.
- Time is a `Clock` object whose `now` only advances by the sleeps the code requests. Sleeps are
  in integer milliseconds (`2**attempt` seconds become `1000 * 2^attempt`).

Where the code does not do what its own comments say, the model follows the code:

- `_clean_text` replaces every `\s+` run, newlines included, with one space *before* splitting
  into lines. The cleaned text is therefore a single line. It is empty when that line is
  purely numeric or shorter than 3 characters (`CleanedShape`). So the line-based page-number
  filter never sees separate lines. More importantly, no next-section marker (all of them begin
  with `\n`) can ever match. Every section found therefore runs from its header to the end of the
  cleaned text, up to the 3000-character cap (`ParsedSectionShape`). The comment at
  martin/tools/pdf_extractor.py:307 instead says a section ends at the next major heading.
- A marker is accepted when its start is *more than* 50 characters into the remaining text
  (`> 50`), not "at least 50" as the comment at martin/tools/pdf_extractor.py:330 says.
- Sections are pieces of the *cleaned* text (`ParsedSectionBounds`). The record's `full_text` is
  the uncleaned text.

## Model

| member | source | states |
|---|---|---|
| PaperTextRecord.HasSection | martin/models/paper_text.py:43-56 | true exactly when the name is one of the record's string attributes and that attribute holds text with a non-whitespace character; None sections and names that are not fields give false (inherited attributes are not modelled) |
| PaperTextRecord.UnknownSectionAbsent | martin/models/paper_text.py:53-56 | a name that is neither a field nor an inherited attribute of the record never has a section |
| PaperTextRecord.NamesDistinct | martin/models/paper_text.py:65-72 | the attribute names are pairwise distinct and each names its own attribute |
| PaperTextRecord.SectionSummary | martin/models/paper_text.py:58-73 | the summary has exactly the six section names as keys, each mapped to whether that section has content |
| PaperTextRecord.DefaultSectionsEmpty | martin/models/paper_text.py:21-41 | a record built from the full text alone has all six sections "" and the summary reports none of them |
| PaperTextRecord.GetMainContent | martin/models/paper_text.py:75-99 | the method's five append steps produce exactly the main content: present main sections under their headings, joined by blank lines, or the full text |
| PaperTextRecord.AppendStep | martin/models/paper_text.py:84-97 | one `if has_section: append` step extends the list by that section's headed text exactly when it is present |
| PaperTextRecord.PresentExactly | martin/models/paper_text.py:82-97 | a string is among the main-content parts iff it is the headed text of a main section that has content |
| PaperTextRecord.MainContentFallback | martin/models/paper_text.py:99 | with no main section present, the main content is the full text unchanged |
| PaperTextRecord.MainContentJoined | martin/models/paper_text.py:99 | with some main section present, the main content is the parts joined by "\n\n" |
| PaperTextRecord.MainContentIgnoresReferences | martin/models/paper_text.py:75-99 | changing the references section never changes the main content |
| PdfExtractor.AllTruthy | martin/tools/pdf_extractor.py:93 | `all([...])` on strings is true iff every string is non-empty |
| PdfExtractor.IsValidUrl | martin/tools/pdf_extractor.py:89-95 | a URL is valid iff it parses and both its scheme and its netloc are non-empty |
| PdfExtractor.FirstSuccess | martin/tools/pdf_extractor.py:112-131 | the attempt that returns is below the attempt limit and did not fail |
| PdfExtractor.FirstSuccessSpec | martin/tools/pdf_extractor.py:112-131 | every attempt before the returning one failed; when none returns, every attempt failed |
| PdfExtractor.Backoff | martin/tools/pdf_extractor.py:127-129 | the i-th retry sleeps 2^i seconds |
| PdfExtractor.DownloadAlwaysFailing | martin/tools/pdf_extractor.py:110-137 | when every attempt fails: a download failure after exactly `max_retries` GETs and `max_retries - 1` sleeps of 1, 2, 4, … seconds (none after the last attempt) |
| PdfExtractor.DownloadSucceedsAfter | martin/tools/pdf_extractor.py:112-123 | when attempt k is the first success: its content, k+1 GETs, and k backoff sleeps |
| PdfExtractor.ContentTypeIgnored | martin/tools/pdf_extractor.py:117-121 | the content-type header never changes which attempt succeeds |
| PdfExtractor.DownloadPdf | martin/tools/pdf_extractor.py:97-137 | the retry loop returns the download result, GET count and sleeps of `Download`, and adds exactly those sleeps to the clock |
| PdfExtractor.ExtractTextFromPdf | martin/tools/pdf_extractor.py:139-191 | corrupt document, password protection and no readable page are errors; otherwise the non-blank pages joined by "\n\n" |
| PdfExtractor.ReadableExactly | martin/tools/pdf_extractor.py:164-174 | a text is kept iff it is the extracted text of some page and is not blank; failed pages are skipped |
| PdfExtractor.PdfTextNonBlank | martin/tools/pdf_extractor.py:176-182 | an extracted text is never blank |
| PdfExtractor.JoinNonBlank | martin/tools/pdf_extractor.py:182 | joining non-blank pages gives a non-blank text |
| PdfExtractor.KeptLinesSnoc | martin/tools/pdf_extractor.py:258-266 | one line-loop iteration appends the stripped line iff it is neither all digits nor shorter than 3 |
| PdfExtractor.CleanText | martin/tools/pdf_extractor.py:249-268 | the cleaning method computes the cleaned text |
| PdfExtractor.CollapsedSingleLine | martin/tools/pdf_extractor.py:252-255 | after `\s+` collapsing no newline remains, so the split yields one line |
| PdfExtractor.CleanedIsKept | martin/tools/pdf_extractor.py:249-268 | the line filter over the collapsed text equals the single-line description of the cleaned text |
| PdfExtractor.CleanedShape | martin/tools/pdf_extractor.py:249-268 | the cleaned text is empty iff the stripped collapsed line is all digits or shorter than 3, else it is that line; it has no newline, no double space and no outer space |
| PdfExtractor.Cap | martin/tools/pdf_extractor.py:340-351 | short content is unchanged; long content is cut after its last period within the first 3000 characters if that period lies past 2100, else cut at 3000 and followed by "..." |
| PdfExtractor.CapBounds | martin/tools/pdf_extractor.py:340-351 | a capped section is at most 3003 characters long and is a prefix of the content, or its 3000-character prefix followed by "..." |
| PdfExtractor.Truncate | martin/tools/pdf_extractor.py:340-351 | the truncation code computes the cap |
| PdfExtractor.MarkersWellFormed | martin/tools/pdf_extractor.py:315-322 | the six next-section markers have lower-case keyword words |
| PdfExtractor.ContentStart | martin/tools/pdf_extractor.py:300-306 | content starts after the first newline at or after the header end, or at the header end, within the text |
| PdfExtractor.NextSection | martin/tools/pdf_extractor.py:308-332 | the next section starts within the remaining text |
| PdfExtractor.SectionEnd | martin/tools/pdf_extractor.py:308-335 | the section end lies between the content start and the end of the text |
| PdfExtractor.HeaderEndStep | martin/tools/pdf_extractor.py:287-295 | trying one more pattern: a pattern with a match decides the header, one without passes on to the next |
| PdfExtractor.EarliestMarkerSnoc | martin/tools/pdf_extractor.py:324-332 | one more marker pattern lowers the earliest marker to its first accepted match |
| PdfExtractor.FirstAboveStep | martin/tools/pdf_extractor.py:329-332 | a match at most 50 characters in is skipped |
| PdfExtractor.FindHeader | martin/tools/pdf_extractor.py:283-298 | the pattern loop finds no header iff no pattern matches, otherwise the end of the first matching pattern's leftmost match |
| PdfExtractor.NextSectionOffset | martin/tools/pdf_extractor.py:324-332 | the marker loop computes the earliest accepted marker position |
| PdfExtractor.FirstStartAbove | martin/tools/pdf_extractor.py:328-332 | the match loop returns the first match start beyond 50, or the default |
| PdfExtractor.ExtractSectionContent | martin/tools/pdf_extractor.py:270-353 | the method computes the section: "" without a header, else the stripped, capped slice from the content start to the section end |
| PdfExtractor.SectionBounds | martin/tools/pdf_extractor.py:300-353 | every section is a piece of the text of at most 3003 characters, or a 3000-character piece followed by "..." |
| PdfExtractor.StripOfSlice | martin/tools/pdf_extractor.py:338 | stripping a slice of the text leaves a slice of the text |
| PdfExtractor.CapOfPiece | martin/tools/pdf_extractor.py:340-353 | capping a piece of the text keeps it a piece of the text, or a capped piece followed by "..." |
| PdfExtractor.NextSectionWithoutNewline | martin/tools/pdf_extractor.py:315-335 | without a newline no marker matches and the section runs to the end |
| PdfExtractor.SectionOfSingleLine | martin/tools/pdf_extractor.py:300-338 | in a single-line text the section is the stripped, capped rest of the text after the header |
| PdfExtractor.ParseSections | martin/tools/pdf_extractor.py:193-247 | the result has exactly the six section names as keys, each holding that section of the cleaned text |
| PdfExtractor.SectionsStep | martin/tools/pdf_extractor.py:242-245 | storing one more section keeps the sections stored so far |
| PdfExtractor.ParsedSectionShape | martin/tools/pdf_extractor.py:203-247 | a parsed section is "" without a header match, else the stripped, capped cleaned text from the header's end to the end |
| PdfExtractor.ParsedSectionBounds | martin/tools/pdf_extractor.py:193-247 | every parsed section is a piece of the cleaned text of at most 3003 characters, or a 3000-character piece plus "..." |
| PdfExtractor.ExtractFromUrl | martin/tools/pdf_extractor.py:45-87 | an invalid URL fails with no download; otherwise the download's GETs and sleeps happen, and the result is the download error, the PDF error, "no text" for blank text, or the record |
| PdfExtractor.ParsedRecord | martin/tools/pdf_extractor.py:77-87 | the record is built from the full text and the six parsed sections by name |
| PdfExtractor.SectionsByName | martin/tools/pdf_extractor.py:79-87 | each `sections.get(name, "")` finds the section under that name |
| PdfExtractor.ExtractionSucceeds | martin/tools/pdf_extractor.py:59-87 | a valid URL, a successful download and a readable PDF give the record of the extracted text |
| PdfExtractor.ExtractionFailures | martin/tools/pdf_extractor.py:59-74 | a failed download or an encrypted PDF is reported as that failure |
| Headers.DigitRun | martin/tools/pdf_extractor.py:211 | `\d+` consumes the maximal digit run |
| Headers.SpaceRun | martin/tools/pdf_extractor.py:211 | `\s+` consumes the maximal whitespace run |
| Headers.PrefixEnd | martin/tools/pdf_extractor.py:211-239 | the optional `\d+\.?\s+` prefix ends within the text |
| Headers.WordsEnd | martin/tools/pdf_extractor.py:234-237 | the header words separated by `\s+` end within the text, past the first word |
| Headers.MatchAt | martin/tools/pdf_extractor.py:209-240 | a header match at a position ends within the text |
| Headers.FirstFrom | martin/tools/pdf_extractor.py:289-292 | the first position with a match, with its end; no position before it matches; none at all when it is None |
| Headers.LeftmostMatchSpec | martin/tools/pdf_extractor.py:289-294 | `matches[0]` is a match with no earlier match, and exists iff the pattern matches anywhere |
| Headers.FirstHit | martin/tools/pdf_extractor.py:287-295 | the chosen end comes from one of the patterns |
| Headers.FirstHitSpec | martin/tools/pdf_extractor.py:287-295 | nothing is chosen iff no pattern gives a value; otherwise the first pattern that does |
| Headers.HeaderEnd | martin/tools/pdf_extractor.py:287-295 | the header end lies within the text |
| Headers.HeaderEndSpec | martin/tools/pdf_extractor.py:283-298 | no header iff no pattern matches; otherwise the end of the leftmost match of the first pattern, in list order, that matches |
| Headers.MarkerEnd | martin/tools/pdf_extractor.py:315-322 | a marker match starts at a newline and ends within the text |
| Headers.LeastMarker | martin/tools/pdf_extractor.py:326-332 | the first marker match at or after a position, or the end of the text, with no match before it |
| Headers.NeedsDigit | martin/tools/pdf_extractor.py:316-317 | the numbered-heading markers need a digit after the newline |
| Headers.InsideNumbered | martin/tools/pdf_extractor.py:316 | a newline inside a numbered-heading match is not followed by a digit |
| Headers.InsideSubsection | martin/tools/pdf_extractor.py:317 | a newline inside a subsection match is not followed by a digit |
| Headers.InsideKeyword | martin/tools/pdf_extractor.py:318-321 | a keyword marker match has no newline after its first character |
| Headers.NoMatchInside | martin/tools/pdf_extractor.py:326 | no marker match starts inside another match of the same marker, so `finditer` skips nothing |
| Headers.LeastMarkerSkip | martin/tools/pdf_extractor.py:326-332 | skipping positions without a match does not change the first match |
| Headers.FindIterFirstAbove | martin/tools/pdf_extractor.py:326-332 | the first `finditer` match beyond 50 is the first match position beyond 50 |
| Headers.FirstAboveAtMatch | martin/tools/pdf_extractor.py:326-332 | the same, when a match starts at the scan position |
| Headers.FirstAboveAtNoMatch | martin/tools/pdf_extractor.py:326-332 | the same, when no match starts at the scan position |
| Headers.SkipMatch | martin/tools/pdf_extractor.py:326-332 | jumping over a match that starts at or before the guard loses no accepted match |
| Headers.EarliestMarker | martin/tools/pdf_extractor.py:324-332 | the earliest accepted marker lies within the text |
| Headers.EarliestMarkerSpec | martin/tools/pdf_extractor.py:324-332 | the earliest marker is a match of some marker (or the end), and no marker matches before it |
| Headers.EarliestStep | martin/tools/pdf_extractor.py:331 | `min` with one more marker's first match keeps that characterization |
| Text.Lower | martin/tools/pdf_extractor.py:281 | `lower()` keeps the length and maps each ASCII letter to lower case |
| Text.Strip | martin/tools/pdf_extractor.py:259 | `strip()` returns the slice between the leading and trailing whitespace; it is empty iff the text is blank |
| Text.Collapse | martin/tools/pdf_extractor.py:252 | `re.sub(r"\s+", " ", …)` leaves only single spaces as whitespace and keeps whether the text starts with whitespace |
| Text.StripOfCollapse | martin/tools/pdf_extractor.py:252-259 | stripping the collapsed text gives its words joined by single spaces |
| Text.CollapseOfStrip | martin/tools/arxiv_client.py:222 | collapsing the stripped text gives its words joined by single spaces |
| Text.IndexOf | martin/tools/pdf_extractor.py:304 | `find` returns the first occurrence at or after the start, or none |
| Text.LastIndexOf | martin/tools/pdf_extractor.py:345 | `rfind` returns the last occurrence, or none |
| Text.SplitOn | martin/tools/pdf_extractor.py:255 | `split` yields at least one part and no part holds the separator |
| Text.Words | martin/tools/arxiv_client.py:102 | `split()` yields non-empty whitespace-free words, none iff the text is blank |
| Json.GetFound | martin/tools/semantic_scholar_client.py:161-211 | `dict.get` finds a value iff some entry has the key, and the value is that entry's |
| ArxivClient.Sanitize | martin/tools/arxiv_client.py:99 | characters outside `[\w\s\-\.]` become spaces; the length is kept |
| ArxivClient.PrepareQuery | martin/tools/arxiv_client.py:88-116 | the method computes the prepared query |
| ArxivClient.WordsOfQueryChars | martin/tools/arxiv_client.py:99-102 | the words of a sanitized query consist only of word characters, "-" and "." |
| ArxivClient.QueryTermsShape | martin/tools/arxiv_client.py:101-110 | the terms are exactly the words among the first ten longer than 2 characters, all made of query characters |
| ArxivClient.PreparedQueryShape | martin/tools/arxiv_client.py:102-116 | no terms or no words give "all:machine learning"; otherwise "all:" and the terms joined by " AND " |
| ArxivClient.CleanText | martin/tools/arxiv_client.py:216-223 | the cleaned text is the words joined by single spaces: no double space, no outer space; "" for a missing text |
| ArxivClient.FourDigitValue | martin/tools/arxiv_client.py:232-234 | four digits read as an integer between 0 and 9999 |
| ArxivClient.ExtractYear | martin/tools/arxiv_client.py:225-238 | a date beginning with four digits gives their value, anything else 2024 |
| ArxivClient.YearRoundTrip | martin/tools/arxiv_client.py:225-238 | writing a four-digit year and reading it back gives the year |
| ArxivClient.LastSegmentSpec | martin/tools/arxiv_client.py:190 | `split("/")[-1]` is the suffix after the last "/", holding no "/" |
| ArxivClient.IdentifierOfId | martin/tools/arxiv_client.py:184-191 | an id with text gives its last path segment and `https://arxiv.org/pdf/<id>.pdf`; no id gives two empty strings |
| ArxivClient.EntryPaper | martin/tools/arxiv_client.py:155-214 | an entry gives no paper iff its title or summary is missing or empty |
| ArxivClient.ParseEntry | martin/tools/arxiv_client.py:155-214 | the entry parser computes the entry's paper |
| ArxivClient.ParseAuthors | martin/tools/arxiv_client.py:164-170 | the author loop keeps the stripped names of the authors that have one, in order |
| ArxivClient.ParseCategories | martin/tools/arxiv_client.py:193-199 | the category loop keeps the non-empty terms, in order |
| ArxivClient.EntryAuthors | martin/tools/arxiv_client.py:164-170 | an author is listed iff some author element has that name text, stripped; no more authors than elements |
| ArxivClient.EntryCategories | martin/tools/arxiv_client.py:193-199 | a category is listed iff some category element has it as non-empty term; no more than elements |
| ArxivClient.ParseResponse | martin/tools/arxiv_client.py:118-153 | malformed XML is a parse error; otherwise the papers of the entries |
| ArxivClient.FeedPapersExactly | martin/tools/arxiv_client.py:137-150 | a paper is returned iff some entry parses to it; no more papers than entries; the records of any prefix of the feed come before those of the rest, so feed order is kept |
| ArxivClient.OneEntryWithoutSummary | martin/tools/arxiv_client.py:140-148 | an entry without a summary is skipped while its neighbour is kept |
| ArxivClient.Search | martin/tools/arxiv_client.py:47-86 | a transport error or error status is a request error, a malformed feed a parse error, otherwise the feed's papers |
| SemanticScholar.ParsePaper | martin/tools/semantic_scholar_client.py:157-230 | the method computes the paper record of an item |
| SemanticScholar.CollectAuthors | martin/tools/semantic_scholar_client.py:166-173 | the author loop keeps the names of dict authors and string authors, in order |
| SemanticScholar.PaperOfKept | martin/tools/semantic_scholar_client.py:157-230 | an item gives a paper iff it is a dict with a non-blank string title, iterable authors, and string-or-absent abstract and venue |
| SemanticScholar.NullFieldDropsRecord | martin/tools/semantic_scholar_client.py:161-186 | a null title, abstract or venue makes `.strip()` raise and drops the item |
| SemanticScholar.PaperOfText | martin/tools/semantic_scholar_client.py:160-188 | the title is stripped and non-empty; a blank or missing abstract or venue becomes "No abstract available" / "Unknown Venue" |
| SemanticScholar.PaperOfYear | martin/tools/semantic_scholar_client.py:180-183 | a non-zero integer year is kept, `True` gives 1, anything else 2024 |
| SemanticScholar.PaperOfCitations | martin/tools/semantic_scholar_client.py:190-193 | an integer citation count is kept, a non-integer or a missing one gives 0 |
| SemanticScholar.PaperOfParts | martin/tools/semantic_scholar_client.py:165-211 | authors, DOI and fields of study are those of the item |
| SemanticScholar.AuthorsOfList | martin/tools/semantic_scholar_client.py:166-173 | an author is listed iff it is a string element or the name of a dict element having one |
| SemanticScholar.FieldsOfStudyExactly | martin/tools/semantic_scholar_client.py:207-211 | a field of study is listed iff it is a string element of the item's list |
| SemanticScholar.DoiOnlyFromDict | martin/tools/semantic_scholar_client.py:201-205 | a DOI comes only from an `externalIds` dict's "DOI" entry |
| SemanticScholar.ParseResponse | martin/tools/semantic_scholar_client.py:127-155 | the method computes the response's papers |
| SemanticScholar.NoDataNoPapers | martin/tools/semantic_scholar_client.py:139-141 | a response without "data", or with an empty list, has no papers |
| SemanticScholar.ResponsePapersExactly | martin/tools/semantic_scholar_client.py:143-155 | a paper is returned iff some item parses to it, and the items' papers keep their order |
| SemanticScholar.HeadersFor | martin/tools/semantic_scholar_client.py:47-54 | the user agent always, and `x-api-key` exactly when a non-empty key is given |
| SemanticScholar.IntervalFor | martin/tools/semantic_scholar_client.py:56-60 | 3 s between requests without a key, 0.1 s with one |
| SemanticScholar.RateLimitGap | martin/tools/semantic_scholar_client.py:116-125 | at most one positive sleep, after which the interval since the last request has passed |
| SemanticScholar.ExchangeRetriesOnce | martin/tools/semantic_scholar_client.py:92-101 | a second GET happens iff the first answer is 429 with a usable Retry-After (absent, or an integer from 0 to 9223372036 seconds), after sleeping that many seconds |
| SemanticScholar.RetryAfterDefault | martin/tools/semantic_scholar_client.py:93-98 | a 429 without Retry-After waits 60 s; a failing retry is a request error |
| SemanticScholar.RetryDelayRange | martin/tools/semantic_scholar_client.py:93-97 | a usable delay is a whole number of seconds from 0 to 9223372036, the bound past which `time.sleep` raises OverflowError; text `int()` rejects is never usable |
| SemanticScholar.RetryOutcome | martin/tools/semantic_scholar_client.py:92-114 | after a 429 with a usable Retry-After, the one sleep is that delay and the second answer decides: a transport failure, an error status or an undecodable body is a request error, otherwise the body's papers |
| SemanticScholar.RetryAfterRejected | martin/tools/semantic_scholar_client.py:93-97 | a 429 whose `Retry-After` is not an integer, is negative, or is too large ends the search with a ValueError, after one GET and no sleep |
| SemanticScholar.NoRetryOtherwise | martin/tools/semantic_scholar_client.py:87-105 | any other first answer means one GET; a transport error or error status is a request error, else the body's papers |
| SemanticScholar.Limit | martin/tools/semantic_scholar_client.py:83 | the limit is `min(max_results, 100)` |
| SemanticScholar.DetailsOutcomes | martin/tools/semantic_scholar_client.py:232-263 | transport errors, 404 and error statuses give None; any paper returned is the body's parsed paper |
| SemanticScholar.SemanticScholarClient.constructor | martin/tools/semantic_scholar_client.py:38-60 | headers and interval follow the API key; no request has been made |
| SemanticScholar.SemanticScholarClient.WaitForRateLimit | martin/tools/semantic_scholar_client.py:116-125 | sleeps the remainder of the interval if needed, then records the time; requests are at least one interval apart |
| SemanticScholar.SemanticScholarClient.Search | martin/tools/semantic_scholar_client.py:62-114 | rate-limit wait, then the exchange: its result, its GETs with the same parameters, its sleeps, and the new `last_request_time` (the time after the rate-limit wait) |
| SemanticScholar.SemanticScholarClient.GetPaperDetails | martin/tools/semantic_scholar_client.py:232-263 | rate-limit wait, one GET for the paper, the details outcome, the sleep, and the new `last_request_time`: the current time, which is the end of the rate-limit wait |
| RealAcademicSearch.ToDict | martin/tools/real_academic_search.py:33-44 | the dict has the eight keys in declaration order |
| RealAcademicSearch.ToDictGet | martin/tools/real_academic_search.py:33-44 | each key of the dict reads back its own entry |
| RealAcademicSearch.ToDictRoundTrip | martin/tools/real_academic_search.py:33-44 | reading the record back from its dict gives the record |
| RealAcademicSearch.WordRuns | martin/tools/real_academic_search.py:236 | `re.split(r"[^\w]+", …)`'s non-empty pieces are runs of word characters |
| RealAcademicSearch.RelevanceTerms | martin/tools/real_academic_search.py:234-238 | the query terms are word runs longer than 2 characters |
| RealAcademicSearch.Matches | martin/tools/real_academic_search.py:244-245 | at most one match per term |
| RealAcademicSearch.Relevance | martin/tools/real_academic_search.py:211-254 | the score lies in [0, 1] |
| RealAcademicSearch.WeightedBounds | martin/tools/real_academic_search.py:247-254 | 0.7·title share + 0.3·abstract share lies in [0, 1]; all matches give 1, none give 0 |
| RealAcademicSearch.RelevanceExact | martin/tools/real_academic_search.py:225-254 | with a non-empty query that has terms, the score is the weighted title and abstract shares |
| RealAcademicSearch.MatchesAll | martin/tools/real_academic_search.py:244-245 | every term found counts all terms; none found counts 0 |
| RealAcademicSearch.RelevanceExtremes | martin/tools/real_academic_search.py:243-254 | every term in title and abstract scores 1.0, no term in either scores 0.0 |
| RealAcademicSearch.YearFromDate | martin/tools/real_academic_search.py:174-187 | a date beginning with four digits gives their value, anything else 2024 |
| RealAcademicSearch.YearFromDateAgrees | martin/tools/real_academic_search.py:174-187 | the engine's year extraction agrees with the arXiv client's |
| RealAcademicSearch.ArxivVenueOf | martin/tools/real_academic_search.py:189-209 | no categories give "arXiv preprint"; otherwise it is followed by the first category's readable name in parentheses |
| RealAcademicSearch.ArxivVenuePrefix | martin/tools/real_academic_search.py:189-209 | every arXiv venue starts with "arXiv preprint" |
| RealAcademicSearch.ArxivVenueFirstOnly | martin/tools/real_academic_search.py:207-209 | only the first category matters |
| RealAcademicSearch.MachineLearningVenue | martin/tools/real_academic_search.py:199-209 | `cs.LG` first gives "arXiv preprint (Computer Science - Machine Learning)" |
| RealAcademicSearch.UnknownCategoryVenue | martin/tools/real_academic_search.py:207-209 | an unmapped first category appears verbatim |
| RealAcademicSearch.ConvertedRecords | martin/tools/real_academic_search.py:130-172 | arXiv records have 0 citations, the PDF URL, the parsed year and an arXiv venue; Semantic Scholar records keep their fields; both score in [0, 1] |
| RealAcademicSearch.Unsymbols | martin/tools/real_academic_search.py:295 | characters outside `[\w\s]` become spaces |
| RealAcademicSearch.NormalizeTitle | martin/tools/real_academic_search.py:289-298 | the normalized title is the words of the lower-cased, de-symboled title joined by single spaces |
| RealAcademicSearch.UnsymbolsOfLower | martin/tools/real_academic_search.py:295 | after lower-casing and removing symbols only lower-case word characters and whitespace remain |
| RealAcademicSearch.CollapsedShape | martin/tools/real_academic_search.py:297 | collapsing and stripping leaves word characters and single inner spaces |
| RealAcademicSearch.NormalizedShape | martin/tools/real_academic_search.py:289-298 | a normalized title holds only lower-case word characters and single inner spaces, with no outer space |
| RealAcademicSearch.SimilarIsJaccard | martin/tools/real_academic_search.py:300-322 | two titles are similar iff both are non-empty with words and the Jaccard similarity of their word sets is at least 0.8 |
| RealAcademicSearch.JaccardTest | martin/tools/real_academic_search.py:317-322 | 5·common ≥ 4·all is the same test as common/all ≥ 0.8 |
| RealAcademicSearch.SimilarSymmetric | martin/tools/real_academic_search.py:300-322 | similarity is symmetric |
| RealAcademicSearch.SimilarSelf | martin/tools/real_academic_search.py:308-322 | a non-blank title is similar to itself; an empty one to nothing |
| RealAcademicSearch.DedupBy | martin/tools/real_academic_search.py:256-287 | deduplication never adds records |
| RealAcademicSearch.SeenSimilar | martin/tools/real_academic_search.py:276-281 | the inner loop reports a duplicate iff some seen title is similar |
| RealAcademicSearch.DeduplicateResults | martin/tools/real_academic_search.py:256-287 | the method computes the deduplicated list |
| RealAcademicSearch.DedupBySubsequence | martin/tools/real_academic_search.py:272-287 | the kept records are a subsequence of the input |
| RealAcademicSearch.DedupByPrefix | martin/tools/real_academic_search.py:272-287 | records kept from a prefix stay kept |
| RealAcademicSearch.DedupByStep | martin/tools/real_academic_search.py:272-285 | each record is appended, or dropped because its key is similar to a kept one |
| RealAcademicSearch.DedupByNoSimilarPair | martin/tools/real_academic_search.py:272-287 | for a symmetric similarity no two kept records are similar |
| RealAcademicSearch.DedupSubsequence | martin/tools/real_academic_search.py:256-287 | the deduplicated list is a subsequence of the results |
| RealAcademicSearch.DedupKeepsFirst | martin/tools/real_academic_search.py:272-285 | the first result is always kept |
| RealAcademicSearch.DedupStep | martin/tools/real_academic_search.py:272-285 | each result is kept, or dropped for a similar normalized title already kept |
| RealAcademicSearch.DedupKeepsUntitled | martin/tools/real_academic_search.py:308-309 | a result whose normalized title is empty is never dropped |
| RealAcademicSearch.DedupNoSimilarPair | martin/tools/real_academic_search.py:256-287 | no two deduplicated results have similar normalized titles |
| RealAcademicSearch.InsertPermutes | martin/tools/real_academic_search.py:344 | insertion keeps every record |
| RealAcademicSearch.RankPermutes | martin/tools/real_academic_search.py:344 | ranking is a permutation |
| RealAcademicSearch.InsertRanked | martin/tools/real_academic_search.py:338-344 | insertion into a ranked list keeps it ranked |
| RealAcademicSearch.RankRanked | martin/tools/real_academic_search.py:338-344 | ranked by relevance, then citations, then year, all descending |
| RealAcademicSearch.InsertWithKey | martin/tools/real_academic_search.py:344 | insertion puts a record after the records with its key |
| RealAcademicSearch.RankStable | martin/tools/real_academic_search.py:344 | records with equal keys keep their input order (`sorted` is stable) |
| RealAcademicSearch.RankMember | martin/tools/real_academic_search.py:344 | every ranked record is an input record |
| RealAcademicSearch.Take | martin/tools/real_academic_search.py:125 | `[:n]` keeps a prefix of length min(n, len) for n ≥ 0 |
| RealAcademicSearch.ArxivRecords | martin/tools/real_academic_search.py:92-102 | the converted arXiv papers in order, none when the arXiv search failed |
| RealAcademicSearch.S2Records | martin/tools/real_academic_search.py:105-118 | the converted Semantic Scholar papers in order, none when that search failed |
| RealAcademicSearch.ResultsShape | martin/tools/real_academic_search.py:77-128 | at most `max_results` records, each a converted source record, in ranked order; nothing when both sources fail |
| RealAcademicSearch.RealAcademicSearch.constructor | martin/tools/real_academic_search.py:55-75 | keeps `max_results` and creates a Semantic Scholar client for the API key |
| RealAcademicSearch.RealAcademicSearch.Search | martin/tools/real_academic_search.py:77-128 | asks each source for `max_results // 2` papers, and returns the truncated, ranked, deduplicated conversions of what they returned; the clock records the Semantic Scholar rate-limit and 429 sleeps, and the limiter's `last_request_time` becomes the time after the rate-limit wait |

## Left out

- I/O: HTTP sessions, timeouts and `User-Agent` updates of the PDF and arXiv sessions are not modelled. Downloads and answers are parameters. The URL passed to a `GET` is not recorded, except the Semantic Scholar parameters.
- PyPDF2, `BytesIO`, `urlparse` and `xml.etree.ElementTree` are represented by their results. How bytes become pages, or XML becomes entries, is not modelled.
- `print` calls, the emoji error messages and the exception chaining are not modelled. Errors are the `Failure` and `SourceError` values that name the exception raised.
- The extractor's `timeout` and `max_retries` attributes are parameters (`maxRetries`). No extractor object is modelled because none of its state changes after construction.
- The arXiv client object and its `base_url` are not modelled. `ArxivClient.SearchRequest` gives the parameters sent.
- Time: clock readings are integer milliseconds and advance only by sleeps. Time that passes during a request is not modelled. The 0.1 s interval is 100 ms exactly.
- RealAcademicSearch.Relevance: the score is an exact rational, not a binary float, so the 0.7/0.3 weights and the clamp are exact.
- RealAcademicSearch.SimilarIsJaccard: the 0.8 threshold is an integer test (5·common ≥ 4·all), proved equal to the exact rational test. Float rounding of the ratio is not modelled.
- PaperTextRecord.HasSection: only the seven fields are modelled as attributes of the record, so every other name gives false. In the source, `getattr` also finds inherited attributes: a non-blank dunder string such as `__doc__` gives true, and a method or `model_config` makes `.strip()` raise. The same holds for `UnknownSectionAbsent`, which covers names that are neither fields nor inherited attributes.
- Characters are ASCII: `isspace`, `\w`, `\d` and `lower()` follow their ASCII meaning. Unicode whitespace, digits and case mapping are not modelled.
- A decoded JSON object is its entries in order, and `get` takes the first entry with the key. A `JObj` with a repeated key is outside the model: no decoded dict has one, since decoding keeps only the last value, and for such a value `get` and iteration would not match Python. How bytes decode to JSON is not modelled: a response body is its decoded value, or `None` when `response.json()` raises. Search then fails with a request error, as a JSON decode error is a `RequestException`, and `get_paper_details` returns `None`.
- Semantic Scholar `authors`, `url`, `paperId` and `DOI` values pass through as decoded JSON, as the source passes them through untyped.
- A `Retry-After` header that `int()` rejects, that is negative, or that exceeds 9223372036 seconds is one case: a parse error. `time.sleep` raises ValueError for a negative value and OverflowError for one too large for 64-bit nanoseconds, and the search reports both as ValueError. The model does not distinguish these three errors.
- SemanticScholar.RetryDelayRange: 9223372036 s is only the OverflowError bound. `time.sleep` first adds the delay to the monotonic clock, and it raises OSError once that sum passes the same 64-bit limit. So a delay just below the bound can also fail, and how many values fail depends on the host's uptime and platform. In that case the source raises ValueError after one GET. The model has no monotonic clock, so `RetryDelay`, `ExchangeRetriesOnce`, `RetryOutcome` and `SemanticScholarClient.Search` sleep and make the second GET for every delay up to the bound.
- PdfExtractor.DownloadAlwaysFailing: the sleep limit is not modelled for the PDF backoff. `time.sleep(2**attempt)` raises OverflowError from attempt 34 on, because 2^34 s exceeds 9223372036 s. That error is not a RequestException, so it would escape `_download_pdf` and `extract_from_url` after 35 GETs. `Download`, `DownloadAlwaysFailing`, `DownloadSucceedsAfter` (k of 35 or more), `DownloadPdf` and `ExtractFromUrl` instead sleep 2^34 s and go on retrying. Reaching that attempt takes the earlier sleeps of 2^34 - 1 s, about 544 years, so no real run can reach it.
- The RealAcademicSearch engine reads the API key from the environment. Here the key is a constructor parameter.
- Concurrency: none in the source.
