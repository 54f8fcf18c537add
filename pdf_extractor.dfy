/**
  PDF acquisition and sectioning: URL validation, the retrying download, page-text assembly,
  text cleaning and the heuristic section splitter, and their composition into a `PaperText`.

  The HTTP session, the PDF reader and `urlparse` are inputs: a sequence of transport outcomes
  (one per GET), a function from downloaded bytes to the document the reader sees, and the
  (scheme, netloc) split of the URL.
 */
module PdfExtractor {
  import opened Wrappers
  import opened Text
  import opened Headers
  import opened Clocks
  import opened PaperTextRecord
  import opened Seqs

  newtype byte = x: int | 0 <= x < 256
  type Bytes = seq<byte>

  /** Why an extraction failed. `DownloadFailed` surfaces as a RequestException, every other kind as a ValueError. */
  datatype Failure = InvalidUrl | DownloadFailed | PasswordProtected | CorruptPdf | NoReadableText | NoTextExtracted

  // ---------------------------------------------------------------- URL check

  /** The parts of `urlparse`'s result that the check reads. */
  datatype UrlParts = UrlParts(scheme: string, netloc: string)

  /** Python's `all(...)` over strings: every one is non-empty. */
  function AllTruthy(parts: seq<string>): (b: bool)
    ensures b <==> forall i :: 0 <= i < |parts| ==> parts[i] != []
  {
    if parts == [] then true else parts[0] != [] && AllTruthy(parts[1..])
  }

  /**
    `_is_valid_url`: `parsed` is what `urlparse` returned, or None when it raised. The URL is valid
    iff it has both a scheme and a network location (sections 3.1 and 3.2 of RFC 3986).
   */
  function IsValidUrl(parsed: Option<UrlParts>): (b: bool)
    ensures b <==> parsed.Some? && parsed.value.scheme != [] && parsed.value.netloc != []
  {
    match parsed
    case None => false
    case Some(u) =>
      var parts := [u.scheme, u.netloc];
      assert parts[0] == u.scheme && parts[1] == u.netloc;
      AllTruthy(parts)
  }

  // ---------------------------------------------------------------- download

  datatype Response = Response(status: int, contentType: string, content: Bytes)

  /** What one GET produced: a raised RequestException (connection error, timeout) or a response. */
  datatype Outcome = Raised | Answered(response: Response)

  /** The outcome of the `k`-th GET; a transport that has run out of scripted outcomes raises. */
  function OutcomeAt(transport: seq<Outcome>, k: nat): Outcome {
    if k < |transport| then transport[k] else Raised
  }

  /** A GET fails when it raises or when `raise_for_status` does, for a 4xx or 5xx status. */
  predicate Fails(o: Outcome) {
    o.Raised? || 400 <= o.response.status < 600
  }

  /** The first attempt in `[k, n)` whose GET does not fail. */
  function FirstSuccess(transport: seq<Outcome>, n: int, k: nat): (r: Option<nat>)
    ensures r.Some? ==> k <= r.value < n && !Fails(OutcomeAt(transport, r.value))
    decreases n - k
  {
    if k >= n then None
    else if !Fails(OutcomeAt(transport, k)) then Some(k)
    else FirstSuccess(transport, n, k + 1)
  }

  lemma {:induction false} FirstSuccessSpec(transport: seq<Outcome>, n: int, k: nat)
    ensures var r := FirstSuccess(transport, n, k);
      (r.Some? ==> forall i :: k <= i < r.value ==> Fails(OutcomeAt(transport, i))) &&
      (r.None? ==> forall i :: k <= i < n ==> Fails(OutcomeAt(transport, i)))
    decreases n - k
  {
    if k < n && Fails(OutcomeAt(transport, k)) {
      FirstSuccessSpec(transport, n, k + 1);
    }
  }

  function Pow2(i: nat): (r: nat)
    ensures r >= 1
  {
    if i == 0 then 1 else 2 * Pow2(i - 1)
  }

  /** The sleeps before the first `k` retries: 2^0, 2^1, ... seconds, in milliseconds. */
  function Backoff(k: nat): (s: seq<int>)
    ensures |s| == k && forall i :: 0 <= i < k ==> s[i] == 1000 * Pow2(i)
  {
    seq(k, i requires 0 <= i < k => 1000 * Pow2(i))
  }

  /** One more backoff sleep after the first `k` extends the record to the first `k + 1`. */
  lemma SleptOneMore(initial: seq<int>, before: seq<int>, after: seq<int>, k: nat)
    requires before == initial + Backoff(k) && after == before + [1000 * Pow2(k)]
    ensures after == initial + Backoff(k + 1)
  {
    assert Backoff(k + 1) == Backoff(k) + [1000 * Pow2(k)];
  }

  /** The number of GETs made when every attempt fails. */
  function Attempts(maxRetries: int): nat {
    if maxRetries > 0 then maxRetries else 0
  }

  /** What a download does: its result, the number of GETs it makes and the sleeps it requests. */
  datatype DownloadRun = DownloadRun(result: Result<Bytes, Failure>, gets: nat, sleeps: seq<int>)

  function Download(transport: seq<Outcome>, maxRetries: int): DownloadRun {
    match FirstSuccess(transport, maxRetries, 0)
    case Some(k) => DownloadRun(Ok(OutcomeAt(transport, k).response.content), k + 1, Backoff(k))
    case None => DownloadRun(Err(DownloadFailed), Attempts(maxRetries), Backoff(Attempts(maxRetries - 1)))
  }

  /** A transport that always fails gets exactly `maxRetries` GETs, separated by sleeps of 1, 2, ... seconds. */
  lemma DownloadAlwaysFailing(transport: seq<Outcome>, maxRetries: nat)
    requires maxRetries >= 1 && forall i :: 0 <= i < maxRetries ==> Fails(OutcomeAt(transport, i))
    ensures var run := Download(transport, maxRetries);
      run.result == Err(DownloadFailed) && run.gets == maxRetries &&
      |run.sleeps| == maxRetries - 1 && forall i :: 0 <= i < maxRetries - 1 ==> run.sleeps[i] == 1000 * Pow2(i)
  {
    FirstSuccessSpec(transport, maxRetries, 0);
  }

  /** `k` failures and then a success, within the retry budget: the payload after `k + 1` GETs and `k` sleeps. */
  lemma DownloadSucceedsAfter(transport: seq<Outcome>, maxRetries: int, k: nat)
    requires k < maxRetries && k < |transport| && transport[k].Answered?
    requires !Fails(transport[k]) && forall i :: 0 <= i < k ==> Fails(OutcomeAt(transport, i))
    ensures var run := Download(transport, maxRetries);
      run.result == Ok(transport[k].response.content) && run.gets == k + 1 &&
      |run.sleeps| == k && forall i :: 0 <= i < k ==> run.sleeps[i] == 1000 * Pow2(i)
  {
    FirstSuccessSpec(transport, maxRetries, 0);
    assert OutcomeAt(transport, k) == transport[k];
    assert FirstSuccess(transport, maxRetries, 0) == Some(k);
  }

  /** Responses that differ only in their content-type header download identically. */
  lemma {:induction false} ContentTypeIgnored(transport: seq<Outcome>, other: seq<Outcome>, n: int, k: nat)
    requires |transport| == |other|
    requires forall i :: 0 <= i < |transport| ==> transport[i].Raised? == other[i].Raised?
    requires forall i :: 0 <= i < |transport| && transport[i].Answered? ==>
      transport[i].response.(contentType := other[i].response.contentType) == other[i].response
    ensures FirstSuccess(transport, n, k) == FirstSuccess(other, n, k)
    decreases n - k
  {
    if k < n {
      ContentTypeIgnored(transport, other, n, k + 1);
    }
  }

  /**
    `_download_pdf`: up to `maxRetries` GETs, sleeping 2^attempt seconds after every failed
    attempt but the last. The content-type header is read and never acted upon.
   */
  method DownloadPdf(transport: seq<Outcome>, maxRetries: int, clock: Clock) returns (r: Result<Bytes, Failure>, gets: nat)
    requires clock.Valid()
    modifies clock
    ensures clock.Valid()
    ensures var run := Download(transport, maxRetries);
      r == run.result && gets == run.gets && clock.sleeps == old(clock.sleeps) + run.sleeps
  {
    gets := 0;
    var attempt := 0;
    while attempt < maxRetries
      invariant 0 <= attempt && (attempt == 0 || attempt < maxRetries)
      invariant gets == attempt
      invariant FirstSuccess(transport, maxRetries, 0) == FirstSuccess(transport, maxRetries, attempt)
      invariant clock.Valid() && clock.sleeps == old(clock.sleeps) + Backoff(attempt)
      decreases maxRetries - attempt
    {
      var outcome := OutcomeAt(transport, attempt);
      gets := gets + 1;
      if !Fails(outcome) {
        return Ok(outcome.response.content), gets;
      }
      if attempt < maxRetries - 1 {
        ghost var slept := clock.sleeps;
        clock.Sleep(1000 * Pow2(attempt));
        SleptOneMore(old(clock.sleeps), slept, clock.sleeps, attempt);
        attempt := attempt + 1;
        continue;
      }
      assert FirstSuccess(transport, maxRetries, attempt + 1).None?;
      break;
    }
    assert attempt == Attempts(maxRetries - 1) && gets == Attempts(maxRetries);
    r := Err(DownloadFailed);
  }

  // ---------------------------------------------------------------- page text

  /**
    What the PDF reader makes of the downloaded bytes: a file it cannot parse, or a document with
    an encryption flag and, per page, the extracted text or None when extracting that page raised.
   */
  datatype PdfDocument = Unreadable | Pdf(encrypted: bool, pages: seq<Option<string>>)

  /** The texts of the pages that were read and hold a non-whitespace character, in page order. */
  function Readable(pages: seq<Option<string>>): seq<string> {
    if pages == [] then []
    else
      var last := pages[|pages| - 1];
      Readable(pages[..|pages| - 1]) + (if last.Some? && NonBlank(last.value) then [last.value] else [])
  }

  /** The text `_extract_text_from_pdf` returns for a document, or why it raised. */
  function PdfText(doc: PdfDocument): Result<string, Failure> {
    match doc
    case Unreadable => Err(CorruptPdf)
    case Pdf(encrypted, pages) =>
      if encrypted then Err(PasswordProtected)
      else if Readable(pages) == [] then Err(NoReadableText)
      else Ok(Join(Readable(pages), "\n\n"))
  }

  /** `_extract_text_from_pdf`: skip unreadable and blank pages and join the rest with blank lines. */
  method ExtractTextFromPdf(doc: PdfDocument) returns (r: Result<string, Failure>)
    ensures r == PdfText(doc)
  {
    if doc.Unreadable? {
      return Err(CorruptPdf);
    }
    if doc.encrypted {
      return Err(PasswordProtected);
    }
    var textParts: seq<string> := [];
    var pageNum := 0;
    while pageNum < |doc.pages|
      invariant 0 <= pageNum <= |doc.pages|
      invariant textParts == Readable(doc.pages[..pageNum])
    {
      var page := doc.pages[pageNum];
      assert doc.pages[..pageNum + 1][..pageNum] == doc.pages[..pageNum];
      if page.Some? && NonBlank(page.value) {
        textParts := textParts + [page.value];
      }
      pageNum := pageNum + 1;
    }
    assert doc.pages[..pageNum] == doc.pages;
    if textParts == [] {
      return Err(NoReadableText);
    }
    r := Ok(Join(textParts, "\n\n"));
  }

  /** A page's text survives iff the page was read and is not blank. */
  lemma {:induction false} ReadableExactly(pages: seq<Option<string>>, t: string)
    ensures t in Readable(pages) <==> exists i :: 0 <= i < |pages| && pages[i] == Some(t) && NonBlank(t)
  {
    if pages != [] {
      var n := |pages| - 1;
      ReadableExactly(pages[..n], t);
      if t in Readable(pages) && !(pages[n] == Some(t) && NonBlank(t)) {
        var i :| 0 <= i < n && pages[..n][i] == Some(t) && NonBlank(t);
        assert pages[i] == pages[..n][i];
      }
      if exists i :: 0 <= i < |pages| && pages[i] == Some(t) && NonBlank(t) {
        var i :| 0 <= i < |pages| && pages[i] == Some(t) && NonBlank(t);
        if i < n {
          assert pages[..n][i] == pages[i];
        }
      }
    }
  }

  /** Every surviving page text is non-blank. */
  lemma {:induction false} ReadableNonBlank(pages: seq<Option<string>>)
    ensures forall k :: 0 <= k < |Readable(pages)| ==> NonBlank(Readable(pages)[k])
  {
    if pages != [] {
      ReadableNonBlank(pages[..|pages| - 1]);
    }
  }

  /** Joining non-blank parts gives a non-blank text. */
  lemma {:induction false} JoinNonBlank(parts: seq<string>, sep: string)
    requires parts != [] && forall k :: 0 <= k < |parts| ==> NonBlank(parts[k])
    ensures NonBlank(Join(parts, sep))
  {
    var i :| 0 <= i < |parts[0]| && !IsSpace(parts[0][i]);
    if |parts| > 1 {
      assert Join(parts, sep) == parts[0] + sep + Join(parts[1..], sep);
      assert Join(parts, sep)[i] == parts[0][i];
    }
  }

  /** Extracted text is never blank, so the whitespace check of `extract_from_url` never rejects. */
  lemma PdfTextNonBlank(doc: PdfDocument)
    requires PdfText(doc).Ok?
    ensures NonBlank(PdfText(doc).value)
  {
    ReadableNonBlank(doc.pages);
    JoinNonBlank(Readable(doc.pages), "\n\n");
  }

  // ---------------------------------------------------------------- cleaning

  /** A line the cleaner keeps: not a bare page number (`^\d+$`) and at least three characters long. */
  predicate KeepLine(line: string) {
    !(line != [] && AllDigits(line)) && |line| >= 3
  }

  /** The stripped lines that survive the filter, in order. */
  function KeptLines(lines: seq<string>): seq<string> {
    if lines == [] then []
    else
      var line := Strip(lines[|lines| - 1]);
      KeptLines(lines[..|lines| - 1]) + (if KeepLine(line) then [line] else [])
  }

  lemma KeptLinesSnoc(lines: seq<string>, i: nat)
    requires i < |lines|
    ensures KeptLines(lines[..i + 1]) == KeptLines(lines[..i]) + (if KeepLine(Strip(lines[i])) then [Strip(lines[i])] else [])
  {
    assert lines[..i + 1][..i] == lines[..i];
  }

  /**
    What `_clean_text` leaves of a text: since every whitespace run, newlines included, becomes one
    space before the text is split into lines, there is a single line, the text's words joined
    by single spaces, and it is kept or dropped as a whole.
   */
  function Cleaned(text: string): string {
    var line := SingleSpaced(text);
    if KeepLine(line) then line else ""
  }

  /** `_clean_text`. */
  method CleanText(text: string) returns (r: string)
    ensures r == Cleaned(text)
  {
    var collapsed := Collapse(text);
    var lines := SplitOn(collapsed, '\n');
    var cleanedLines: seq<string> := [];
    var i := 0;
    while i < |lines|
      invariant 0 <= i <= |lines|
      invariant cleanedLines == KeptLines(lines[..i])
    {
      var line := Strip(lines[i]);
      KeptLinesSnoc(lines, i);
      i := i + 1;
      if line != [] && AllDigits(line) {
        continue;
      }
      if |line| < 3 {
        continue;
      }
      cleanedLines := cleanedLines + [line];
    }
    assert lines[..i] == lines;
    r := Join(cleanedLines, "\n");
    CleanedIsKept(text);
  }

  /** Collapsed text holds no newline: every whitespace character left in it is a space. */
  lemma CollapsedSingleLine(text: string)
    ensures '\n' !in Collapse(text)
    ensures SplitOn(Collapse(text), '\n') == [Collapse(text)]
  {
    var c := Collapse(text);
    assert IsSpace('\n');
    assert forall i :: 0 <= i < |c| ==> c[i] != '\n';
    assert IndexOf(c, '\n', 0).None?;
  }

  lemma CleanedIsKept(text: string)
    ensures Join(KeptLines(SplitOn(Collapse(text), '\n')), "\n") == Cleaned(text)
  {
    CollapsedSingleLine(text);
    StripOfCollapse(text);
    var c := Collapse(text);
    assert [c][..0] == [];
  }

  /** A slice of a text without double spaces or newlines has none either. */
  lemma SliceKeepsSpacing(c: string, lo: nat, hi: nat)
    requires lo <= hi <= |c| && NoDoubleSpace(c) && '\n' !in c
    ensures NoDoubleSpace(c[lo..hi]) && '\n' !in c[lo..hi]
  {
    var x := c[lo..hi];
    forall i, j | 0 <= i < |x| && 0 <= j < |x| && j == i + 1 ensures !(IsSpace(x[i]) && IsSpace(x[j])) {
      assert x[i] == c[lo + i] && x[j] == c[lo + j];
    }
    forall i | 0 <= i < |x| ensures x[i] != '\n' {
      assert x[i] == c[lo + i];
    }
  }

  /**
    The cleaned text is `""` exactly when the single-spaced text is shorter than three characters
    or all digits; otherwise it is that text, which has no newline, no double space and no
    whitespace at either end.
   */
  lemma CleanedShape(text: string)
    ensures var r := Cleaned(text); var line := SingleSpaced(text);
      (r == [] <==> |line| < 3 || AllDigits(line)) &&
      (r != [] ==> r == line) &&
      '\n' !in r && NoDoubleSpace(r) &&
      (r == [] || (!IsSpace(r[0]) && !IsSpace(r[|r| - 1])))
  {
    var c := Collapse(text);
    CollapsedSingleLine(text);
    StripOfCollapse(text);
    var l := LeadingSpaces(c);
    var line := Strip(c);
    SliceKeepsSpacing(c, l, l + |line|);
  }

  // ---------------------------------------------------------------- truncation

  const MaxSectionLength: nat := 3000

  /**
    The section length cap: a text of at most 3000 characters is kept; a longer one is cut after
    the last `.` among its first 3000 characters when that `.` lies beyond index 2100
    (`3000 * 0.7`), and is otherwise cut at 3000 characters with `"..."` appended.
   */
  function Cap(s: string): (r: string)
    ensures |s| <= MaxSectionLength ==> r == s
    ensures |s| > MaxSectionLength ==>
      (2100 < |r| - 1 && |r| <= MaxSectionLength && r == s[..|r|] && s[|r| - 1] == '.' &&
        forall i :: |r| <= i < MaxSectionLength ==> s[i] != '.') ||
      (r == s[..MaxSectionLength] + "..." && forall i :: 2100 < i < MaxSectionLength ==> s[i] != '.')
  {
    if |s| <= MaxSectionLength then s
    else
      var truncated := s[..MaxSectionLength];
      match LastIndexOf(truncated, '.')
      case Some(lastPeriod) =>
        if lastPeriod > 2100 then truncated[..lastPeriod + 1] else truncated + "..."
      case None => truncated + "..."
  }

  /** The cap never yields more than 3003 characters, and what it keeps is a prefix of its input. */
  lemma CapBounds(s: string)
    ensures |Cap(s)| <= MaxSectionLength + 3
    ensures var r := Cap(s);
      (|r| <= |s| && r == s[..|r|]) ||
      (|r| == MaxSectionLength + 3 && r[..MaxSectionLength] == s[..MaxSectionLength] && r[MaxSectionLength..] == "...")
  {
  }

  // ---------------------------------------------------------------- sections

  /** The header patterns tried for each section, in the order `_parse_sections` lists them. */
  function PatternsFor(f: Field): seq<HeaderPattern> {
    match f
    case Abstract => [HeaderPattern(Bare, ["abstract"], false)]
    case Introduction => [HeaderPattern(Number, ["introduction"], false), HeaderPattern(Bare, ["introduction"], false)]
    case Methodology => [
      HeaderPattern(NumberDot, ["methodology"], false), HeaderPattern(NumberDot, ["method"], true),
      HeaderPattern(NumberDot, ["approach"], false), HeaderPattern(NumberDot, ["model"], false),
      HeaderPattern(Bare, ["methodology"], false), HeaderPattern(Bare, ["method"], true),
      HeaderPattern(Bare, ["approach"], false), HeaderPattern(Bare, ["model"], false)]
    case Results => [
      HeaderPattern(NumberDot, ["results"], false), HeaderPattern(NumberDot, ["experiment"], true),
      HeaderPattern(NumberDot, ["evaluation"], false), HeaderPattern(NumberDot, ["findings"], false),
      HeaderPattern(Bare, ["results"], false), HeaderPattern(Bare, ["experiment"], true),
      HeaderPattern(Bare, ["evaluation"], false)]
    case Conclusion => [
      HeaderPattern(NumberDot, ["conclusion"], true), HeaderPattern(NumberDot, ["discussion"], false),
      HeaderPattern(NumberDot, ["future", "work"], false),
      HeaderPattern(Bare, ["conclusion"], true), HeaderPattern(Bare, ["discussion"], false),
      HeaderPattern(Bare, ["future", "work"], false)]
    case References => [HeaderPattern(Bare, ["references"], false), HeaderPattern(Bare, ["bibliography"], false)]
    case FullText => []
  }

  /** The next-section markers, in the order they are tried. */
  const Markers: seq<Marker> := [
    NumberedHeading, SubsectionHeading, Keyword("references", false), Keyword("bibliography", false),
    Keyword("acknowledgment", true), Keyword("appendix", false)]

  lemma MarkersWellFormed()
    ensures forall k :: 0 <= k < |Markers| ==> WellFormedMarker(Markers[k])
  {
  }

  /** Where content begins: after the first newline at or after the header end, if there is one. */
  function ContentStart(text: string, headerEnd: nat): (r: nat)
    requires headerEnd <= |text|
    ensures headerEnd <= r <= |text|
  {
    match IndexOf(text, '\n', headerEnd)
    case Some(nl) => nl + 1
    case None => headerEnd
  }

  /** A marker only counts more than 50 characters into the remaining text. */
  const MarkerGuard: nat := 50

  /** Where the next section begins in the remaining text: the earliest marker more than 50 characters in, or its end. */
  function NextSection(remaining: string): (r: nat)
    ensures r <= |remaining|
  {
    MarkersWellFormed();
    EarliestMarker(remaining, Markers, MarkerGuard + 1)
  }

  /**
    The section `_extract_section_content` finds: nothing when no pattern matches the lower-cased
    text; otherwise the text from the content start up to the earliest next-section marker that
    lies more than 50 characters in (or to the end), stripped and capped.
   */
  function SectionContent(text: string, pats: seq<HeaderPattern>): string
  {
    match HeaderEnd(Lower(text), pats)
    case None => ""
    case Some(headerEnd) => SectionAfter(text, headerEnd)
  }

  /** Where the section that starts at `start` ends: at the next-section marker, or at the end of the text. */
  function SectionEnd(text: string, start: nat): (end: nat)
    requires start <= |text|
    ensures start <= end <= |text|
  {
    start + NextSection(Lower(text)[start..])
  }

  /** The section whose header ends at `headerEnd`. */
  function SectionAfter(text: string, headerEnd: nat): string
    requires headerEnd <= |text|
  {
    var start := ContentStart(text, headerEnd);
    Cap(Strip(text[start..SectionEnd(text, start)]))
  }

  function Min(a: nat, b: nat): nat {
    if a <= b then a else b
  }

  /** Trying one more pattern: a pattern with no match passes the choice on to the rest. */
  lemma HeaderEndStep(t: string, pats: seq<HeaderPattern>, i: nat)
    requires i < |pats|
    ensures HeaderEnd(t, pats[i..]) ==
      match LeftmostMatch(t, pats[i], 0) case Some(m) => Some(m.1) case None => HeaderEnd(t, pats[i + 1..])
  {
    assert pats[i..][0] == pats[i] && pats[i..][1..] == pats[i + 1..];
  }

  /** Taking one more marker into account. */
  lemma EarliestMarkerSnoc(t: string, ms: seq<Marker>, j: nat, from: nat)
    requires j < |ms| && forall k :: 0 <= k < |ms| ==> WellFormedMarker(ms[k])
    ensures EarliestMarker(t, ms[..j + 1], from) == Min(EarliestMarker(t, ms[..j], from), LeastMarker(t, ms[j], from))
  {
    assert ms[..j + 1][..j] == ms[..j] && ms[..j + 1][j] == ms[j];
  }

  lemma FirstAboveStep(s: seq<nat>, q: nat, b: nat, dflt: nat)
    requires q < |s| && s[q] <= b
    ensures FirstAbove(s[q..], b, dflt) == FirstAbove(s[q + 1..], b, dflt)
  {
    assert s[q..][1..] == s[q + 1..];
  }

  /** `_extract_section_content`: find the header, then the content's end, then strip and cap. */
  method ExtractSectionContent(text: string, patterns: seq<HeaderPattern>) returns (content: string)
    ensures content == SectionContent(text, patterns)
  {
    var textLower := Lower(text);
    var sectionStart, headerEnd := FindHeader(textLower, patterns);
    if sectionStart.None? {
      return "";
    }

    var contentStart := headerEnd;
    var nextNewline := IndexOf(text, '\n', contentStart);
    if nextNewline.Some? {
      contentStart := nextNewline.value + 1;
    }
    var sectionEnd := |text|;
    var remainingText := textLower[contentStart..];
    var earliestNext := NextSectionOffset(remainingText);
    if earliestNext < |remainingText| {
      sectionEnd := contentStart + earliestNext;
    }
    assert contentStart == ContentStart(text, headerEnd) && sectionEnd == SectionEnd(text, contentStart);
    var section := Strip(text[contentStart..sectionEnd]);
    content := Truncate(section);
  }

  /** The pattern loop of `_extract_section_content`: the first pattern with a match gives its leftmost match. */
  method FindHeader(textLower: string, patterns: seq<HeaderPattern>) returns (sectionStart: Option<nat>, headerEnd: nat)
    ensures sectionStart.None? <==> HeaderEnd(textLower, patterns).None?
    ensures sectionStart.Some? ==> HeaderEnd(textLower, patterns) == Some(headerEnd)
  {
    sectionStart := None;
    headerEnd := 0;
    var i := 0;
    while i < |patterns|
      invariant 0 <= i <= |patterns|
      invariant sectionStart.None?
      invariant HeaderEnd(textLower, patterns) == HeaderEnd(textLower, patterns[i..])
    {
      var first := LeftmostMatch(textLower, patterns[i], 0);
      HeaderEndStep(textLower, patterns, i);
      if first.Some? {
        sectionStart := Some(first.value.0);
        headerEnd := first.value.1;
        return;
      }
      i := i + 1;
    }
    assert patterns[i..] == [];
  }

  /**
    The marker loop of `_extract_section_content`: for each marker, the first `re.finditer` match
    more than 50 characters into the remaining text, and the earliest of those.
   */
  method NextSectionOffset(remainingText: string) returns (earliestNext: nat)
    ensures earliestNext == NextSection(remainingText)
  {
    MarkersWellFormed();
    earliestNext := |remainingText|;
    var j := 0;
    while j < |Markers|
      invariant 0 <= j <= |Markers|
      invariant earliestNext == EarliestMarker(remainingText, Markers[..j], MarkerGuard + 1)
    {
      var matches := FindIter(remainingText, Markers[j], 0);
      var first := FirstStartAbove(matches, MarkerGuard, |remainingText|);
      earliestNext := Min(earliestNext, first);
      FindIterFirstAbove(remainingText, Markers[j], 0, MarkerGuard);
      EarliestMarkerSnoc(remainingText, Markers, j, MarkerGuard + 1);
      j := j + 1;
    }
    assert Markers[..j] == Markers;
  }

  /**
    The match loop of `_extract_section_content`: the first match start beyond `guard`, where the
    loop breaks, or `dflt` when there is none.
   */
  method FirstStartAbove(matches: seq<nat>, guard: nat, dflt: nat) returns (r: nat)
    ensures r == FirstAbove(matches, guard, dflt)
  {
    var q := 0;
    while q < |matches|
      invariant 0 <= q <= |matches|
      invariant FirstAbove(matches[q..], guard, dflt) == FirstAbove(matches, guard, dflt)
    {
      if matches[q] > guard {
        return matches[q];
      }
      FirstAboveStep(matches, q, guard, dflt);
      q := q + 1;
    }
    return dflt;
  }

  /** The length cap of `_extract_section_content`. */
  method Truncate(sectionContent: string) returns (r: string)
    ensures r == Cap(sectionContent)
  {
    r := sectionContent;
    if |r| > MaxSectionLength {
      var truncated := r[..MaxSectionLength];
      var lastPeriod := LastIndexOf(truncated, '.');
      if lastPeriod.Some? && lastPeriod.value > 2100 {
        r := truncated[..lastPeriod.value + 1];
      } else {
        r := truncated + "...";
      }
    }
  }
  /**
    `r` is a piece of `text` of at most the cap, or a piece of the cap's length followed by
    `"..."`: the two forms a capped section takes.
   */
  predicate PieceOrCapped(text: string, r: string) {
    |r| <= MaxSectionLength + 3 &&
    (Contains(text, r) ||
     (|r| == MaxSectionLength + 3 && Contains(text, r[..MaxSectionLength]) && r[MaxSectionLength..] == "..."))
  }

  /** A section is a piece of the text, stripped, and possibly shortened, in which case `"..."` may follow it. */
  lemma SectionBounds(text: string, pats: seq<HeaderPattern>)
    ensures PieceOrCapped(text, SectionContent(text, pats))
  {
    match HeaderEnd(Lower(text), pats)
    case None =>
      assert OccursAt(text, "", 0);
    case Some(headerEnd) =>
      var start := ContentStart(text, headerEnd);
      var end := SectionEnd(text, start);
      var piece := Strip(text[start..end]);
      assert SectionContent(text, pats) == Cap(piece);
      var lo := StripOfSlice(text, start, end);
      CapOfPiece(text, piece, lo);
  }

  /** Stripping a slice of the text leaves a slice of the text. */
  lemma StripOfSlice(text: string, start: nat, end: nat) returns (lo: nat)
    requires start <= end <= |text|
    ensures lo + |Strip(text[start..end])| <= |text| && Strip(text[start..end]) == text[lo..lo + |Strip(text[start..end])|]
  {
    var piece := text[start..end];
    var l := LeadingSpaces(piece);
    var n := |Strip(piece)|;
    SliceOfSlice(text, start, end, l, l + n);
    lo := start + l;
  }

  lemma SliceOfSlice(text: string, start: nat, end: nat, i: nat, j: nat)
    requires start <= end <= |text| && i <= j <= end - start
    ensures text[start..end][i..j] == text[start + i..start + j]
  {
    assert forall k :: 0 <= k < j - i ==> text[start..end][i..j][k] == text[start + i + k];
  }

  /** Capping a piece of the text gives a piece of the text, or one followed by `"..."`. */
  lemma CapOfPiece(text: string, s: string, lo: nat)
    requires lo + |s| <= |text| && s == text[lo..lo + |s|]
    ensures PieceOrCapped(text, Cap(s))
  {
    CapBounds(s);
    var r := Cap(s);
    if |r| <= |s| && r == s[..|r|] {
      assert text[lo..lo + |r|] == r;
      assert OccursAt(text, r, lo);
    } else {
      assert text[lo..lo + MaxSectionLength] == r[..MaxSectionLength];
      assert OccursAt(text, r[..MaxSectionLength], lo);
    }
  }

  /** Without a newline no next-section marker can match, so the remaining text runs to its end. */
  lemma NextSectionWithoutNewline(remaining: string)
    requires '\n' !in remaining
    ensures NextSection(remaining) == |remaining|
  {
    MarkersWellFormed();
    EarliestMarkerSpec(remaining, Markers, MarkerGuard + 1);
    forall i, k | 0 <= i < |remaining| && 0 <= k < |Markers| ensures !MarkerAt(remaining, Markers[k], i) {
      assert remaining[i] != '\n';
    }
  }

  /**
    In a text without a newline the content starts right at the header's end and runs to the end
    of the text. The cleaned text `_parse_sections` works on has no newline (`CleanedShape`), so
    every section found there extends to the end of the paper, up to the cap.
   */
  lemma SectionOfSingleLine(text: string, headerEnd: nat)
    requires headerEnd <= |text| && '\n' !in text
    ensures SectionAfter(text, headerEnd) == Cap(Strip(text[headerEnd..]))
  {
    var start := ContentStart(text, headerEnd);
    assert start == headerEnd by {
      assert IndexOf(text, '\n', headerEnd).None?;
    }
    var rem := Lower(text)[start..];
    assert '\n' !in rem by {
      LowerKeepsNewlineFree(text);
    }
    NextSectionWithoutNewline(rem);
    assert SectionEnd(text, start) == |text|;
    assert text[start..|text|] == text[headerEnd..];
  }

  /** Lower-casing introduces no newline. */
  lemma LowerKeepsNewlineFree(text: string)
    requires '\n' !in text
    ensures '\n' !in Lower(text)
  {
    var l := Lower(text);
    forall i | 0 <= i < |l| ensures l[i] != '\n' {
      assert l[i] == LowerChar(text[i]);
      assert text[i] != '\n';
    }
  }

  /** What `_parse_sections` stores for a section: its content in the cleaned text. */
  function SectionOf(text: string, f: Field): string {
    SectionContent(Cleaned(text), PatternsFor(f))
  }

  /** `_parse_sections`: clean the text once, then extract each of the six sections under its name. */
  method ParseSections(text: string) returns (sections: map<string, string>)
    ensures sections.Keys == set f | f in Sections :: Name(f)
    ensures forall f :: f in Sections ==> sections[Name(f)] == SectionOf(text, f)
  {
    var cleaned := CleanText(text);
    sections := map[];
    var i := 0;
    while i < |Sections|
      invariant 0 <= i <= |Sections|
      invariant sections.Keys == set f | f in Sections[..i] :: Name(f)
      invariant forall f :: f in Sections[..i] ==> sections[Name(f)] == SectionOf(text, f)
    {
      var f := Sections[i];
      var content := ExtractSectionContent(cleaned, PatternsFor(f));
      assert content == SectionOf(text, f);
      SectionsStep(sections, Sections[..i], f, content, g => SectionOf(text, g));
      TakeSnoc(Sections, i);
      sections := sections[Name(f) := content];
      i := i + 1;
    }
    assert Sections[..i] == Sections;
  }

  /** Storing one more section under its name keeps the sections stored so far. */
  lemma SectionsStep(m: map<string, string>, done: seq<Field>, f: Field, v: string, spec: Field -> string)
    requires m.Keys == set g | g in done :: Name(g)
    requires forall g :: g in done ==> m[Name(g)] == spec(g)
    requires v == spec(f)
    ensures m[Name(f) := v].Keys == set g | g in done + [f] :: Name(g)
    ensures forall g :: g in done + [f] ==> m[Name(f) := v][Name(g)] == spec(g)
  {
    forall g | g in done + [f]
      ensures m[Name(f) := v][Name(g)] == spec(g)
    {
      if g != f {
        NameRoundTrip(f);
        NameRoundTrip(g);
        assert g in done;
      }
    }
  }

  /**
    The sections of a text, as `_parse_sections` composes cleaning and extraction: since the
    cleaned text is a single line, a section with a header runs from the header's end to the end
    of the cleaned text, stripped and capped, and a section without one is empty.
   */
  lemma ParsedSectionShape(text: string, f: Field)
    ensures var c := Cleaned(text);
      match HeaderEnd(Lower(c), PatternsFor(f))
      case None => SectionOf(text, f) == ""
      case Some(h) => h <= |c| && SectionOf(text, f) == Cap(Strip(c[h..]))
  {
    var c := Cleaned(text);
    CleanedShape(text);
    match HeaderEnd(Lower(c), PatternsFor(f))
    case None =>
    case Some(h) =>
      SectionOfSingleLine(c, h);
  }

  /** Every section `_parse_sections` returns is a piece of the cleaned text, at most 3000 characters, or such a piece followed by `"..."`. */
  lemma ParsedSectionBounds(text: string, f: Field)
    ensures PieceOrCapped(Cleaned(text), SectionOf(text, f))
  {
    SectionBounds(Cleaned(text), PatternsFor(f));
  }

  // ---------------------------------------------------------------- composition

  /** The record built from the uncleaned full text and the sections found in it. */
  function RecordOf(fullText: string): PaperText {
    PaperText(fullText, Some(SectionOf(fullText, Abstract)), Some(SectionOf(fullText, Introduction)),
      Some(SectionOf(fullText, Methodology)), Some(SectionOf(fullText, Results)),
      Some(SectionOf(fullText, Conclusion)), Some(SectionOf(fullText, References)))
  }

  /**
    What `extract_from_url` yields once the URL is parsed, the transport scripted and the PDF
    reader fixed: the URL check first, then the download, then the page text, then the sections.
   */
  function Extraction(parsed: Option<UrlParts>, transport: seq<Outcome>, maxRetries: int, reader: Bytes -> PdfDocument): Result<PaperText, Failure> {
    if !IsValidUrl(parsed) then Err(InvalidUrl)
    else match Download(transport, maxRetries).result
      case Err(e) => Err(e)
      case Ok(bytes) =>
        match PdfText(reader(bytes))
        case Err(e) => Err(e)
        case Ok(fullText) => if NonBlank(fullText) then Ok(RecordOf(fullText)) else Err(NoTextExtracted)
  }

  /**
    `extract_from_url`. An invalid URL is rejected before any GET; otherwise the download's GETs
    and sleeps are those of `Download`.
   */
  method ExtractFromUrl(parsed: Option<UrlParts>, transport: seq<Outcome>, maxRetries: int, reader: Bytes -> PdfDocument, clock: Clock)
    returns (r: Result<PaperText, Failure>, gets: nat)
    requires clock.Valid()
    modifies clock
    ensures clock.Valid()
    ensures r == Extraction(parsed, transport, maxRetries, reader)
    ensures !IsValidUrl(parsed) ==> gets == 0 && clock.sleeps == old(clock.sleeps)
    ensures IsValidUrl(parsed) ==>
      gets == Download(transport, maxRetries).gets && clock.sleeps == old(clock.sleeps) + Download(transport, maxRetries).sleeps
  {
    if !IsValidUrl(parsed) {
      return Err(InvalidUrl), 0;
    }
    var pdfContent;
    pdfContent, gets := DownloadPdf(transport, maxRetries, clock);
    if pdfContent.Err? {
      return Err(pdfContent.error), gets;
    }
    var fullText := ExtractTextFromPdf(reader(pdfContent.value));
    if fullText.Err? {
      return Err(fullText.error), gets;
    }
    if !NonBlank(fullText.value) {
      return Err(NoTextExtracted), gets;
    }
    var sections := ParseSections(fullText.value);
    ParsedRecord(fullText.value, sections);
    r := Ok(PaperText(fullText.value, Some(sections["abstract"]), Some(sections["introduction"]),
      Some(sections["methodology"]), Some(sections["results"]), Some(sections["conclusion"]),
      Some(sections["references"])));
  }

  /** Reading the six sections back out of the parsed map by name gives the record of the text. */
  lemma ParsedRecord(fullText: string, sections: map<string, string>)
    requires sections.Keys == set f | f in Sections :: Name(f)
    requires forall f :: f in Sections ==> sections[Name(f)] == SectionOf(fullText, f)
    ensures "abstract" in sections && "introduction" in sections && "methodology" in sections
    ensures "results" in sections && "conclusion" in sections && "references" in sections
    ensures RecordOf(fullText) == PaperText(fullText, Some(sections["abstract"]), Some(sections["introduction"]),
      Some(sections["methodology"]), Some(sections["results"]), Some(sections["conclusion"]),
      Some(sections["references"]))
  {
    SectionsByName(sections, f => SectionOf(fullText, f));
  }

  lemma SectionsByName(sections: map<string, string>, spec: Field -> string)
    requires sections.Keys == set f | f in Sections :: Name(f)
    requires forall f :: f in Sections ==> sections[Name(f)] == spec(f)
    ensures "abstract" in sections && sections["abstract"] == spec(Abstract)
    ensures "introduction" in sections && sections["introduction"] == spec(Introduction)
    ensures "methodology" in sections && sections["methodology"] == spec(Methodology)
    ensures "results" in sections && sections["results"] == spec(Results)
    ensures "conclusion" in sections && sections["conclusion"] == spec(Conclusion)
    ensures "references" in sections && sections["references"] == spec(References)
  {
    assert Sections[0] == Abstract && Sections[1] == Introduction && Sections[2] == Methodology;
    assert Sections[3] == Results && Sections[4] == Conclusion && Sections[5] == References;
    assert Name(Abstract) in sections && Name(Introduction) in sections && Name(Methodology) in sections;
    assert Name(Results) in sections && Name(Conclusion) in sections && Name(References) in sections;
  }

  /**
    A successful extraction keeps the joined page text, uncleaned, as the full text, and stores
    each section as found in the cleaned text; the check for blank text never rejects, because
    the joined text of surviving pages is never blank.
   */
  lemma ExtractionSucceeds(parsed: Option<UrlParts>, transport: seq<Outcome>, maxRetries: int, reader: Bytes -> PdfDocument)
    requires IsValidUrl(parsed) && Download(transport, maxRetries).result.Ok?
    requires PdfText(reader(Download(transport, maxRetries).result.value)).Ok?
    ensures Extraction(parsed, transport, maxRetries, reader) ==
      Ok(RecordOf(PdfText(reader(Download(transport, maxRetries).result.value)).value))
  {
    var doc := reader(Download(transport, maxRetries).result.value);
    PdfTextNonBlank(doc);
  }

  /** Every failure before the sections are parsed surfaces unchanged; an encrypted document is an error. */
  lemma ExtractionFailures(parsed: Option<UrlParts>, transport: seq<Outcome>, maxRetries: int, reader: Bytes -> PdfDocument)
    requires IsValidUrl(parsed)
    ensures Download(transport, maxRetries).result.Err? ==> Extraction(parsed, transport, maxRetries, reader) == Err(DownloadFailed)
    ensures var d := Download(transport, maxRetries).result;
      (d.Ok? && reader(d.value).Pdf? && reader(d.value).encrypted) ==>
        Extraction(parsed, transport, maxRetries, reader) == Err(PasswordProtected)
  {
  }
}
