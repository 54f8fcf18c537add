/**
  The structured text of one paper: the complete extracted text and six named sections,
  with the queries the review pipeline asks of it.
 */
module PaperTextRecord {
  import opened Wrappers
  import opened Text

  /**
    The record. A section is `Some(text)` once validated; every section defaults to the empty
    string. `None` stands for a section that was assigned None after validation, a state the
    record's queries tolerate.
   */
  datatype PaperText = PaperText(
    fullText: string,
    abstractText: Option<string> := Some(""),
    introduction: Option<string> := Some(""),
    methodology: Option<string> := Some(""),
    results: Option<string> := Some(""),
    conclusion: Option<string> := Some(""),
    references: Option<string> := Some(""))

  /** The record's string attributes. */
  datatype Field = FullText | Abstract | Introduction | Methodology | Results | Conclusion | References

  /** The attribute a name denotes, if it is one of the record's string attributes. */
  function FieldNamed(name: string): Option<Field> {
    if name == "full_text" then Some(FullText)
    else if name == "abstract" then Some(Abstract)
    else if name == "introduction" then Some(Introduction)
    else if name == "methodology" then Some(Methodology)
    else if name == "results" then Some(Results)
    else if name == "conclusion" then Some(Conclusion)
    else if name == "references" then Some(References)
    else None
  }

  function Get(p: PaperText, f: Field): Option<string> {
    match f
    case FullText => Some(p.fullText)
    case Abstract => p.abstractText
    case Introduction => p.introduction
    case Methodology => p.methodology
    case Results => p.results
    case Conclusion => p.conclusion
    case References => p.references
  }

  /** The attribute holds text with at least one non-whitespace character. */
  predicate Filled(p: PaperText, f: Field) {
    Get(p, f).Some? && NonBlank(Get(p, f).value)
  }

  /**
    Whether the named attribute has content. A name that is not an attribute reads as the
    default "", and a None section counts as absent.
   */
  function HasSection(p: PaperText, name: string): (b: bool)
    ensures b <==> FieldNamed(name).Some? && Filled(p, FieldNamed(name).value)
  {
    var v := match FieldNamed(name) case Some(f) => Get(p, f) case None => Some("");
    match v
    case None => false
    case Some(s) => Strip(s) != []
  }

  /** The attribute's name. */
  function Name(f: Field): string {
    match f
    case FullText => "full_text"
    case Abstract => "abstract"
    case Introduction => "introduction"
    case Methodology => "methodology"
    case Results => "results"
    case Conclusion => "conclusion"
    case References => "references"
  }

  /** Names and attributes correspond one to one. */
  lemma NameRoundTrip(f: Field)
    ensures FieldNamed(Name(f)) == Some(f)
  {
  }

  lemma NamesDistinct()
    ensures forall f, g :: Name(f) == Name(g) ==> f == g
    ensures forall f :: FieldNamed(Name(f)) == Some(f)
  {
    forall f ensures FieldNamed(Name(f)) == Some(f) { NameRoundTrip(f); }
    forall f, g | Name(f) == Name(g) ensures f == g {
      NameRoundTrip(f);
      NameRoundTrip(g);
    }
  }

  /** The six sections, in the order the summary lists them. */
  const Sections: seq<Field> := [Abstract, Introduction, Methodology, Results, Conclusion, References]

  /** Which of the six sections were extracted. */
  function SectionSummary(p: PaperText): (m: map<string, bool>)
    ensures m.Keys == set f | f in Sections :: Name(f)
    ensures forall f :: f in Sections ==> m[Name(f)] == Filled(p, f)
  {
    NamesDistinct();
    map f | f in Sections :: Name(f) := HasSection(p, Name(f))
  }

  /** The five main sections in emission order, each with the heading line written before it. References are not among them. */
  const AbstractSection: (Field, string) := (Abstract, "Abstract:\n")
  const IntroductionSection: (Field, string) := (Introduction, "Introduction:\n")
  const MethodologySection: (Field, string) := (Methodology, "Methodology:\n")
  const ResultsSection: (Field, string) := (Results, "Results:\n")
  const ConclusionSection: (Field, string) := (Conclusion, "Conclusion:\n")
  const MainSections: seq<(Field, string)> :=
    [AbstractSection, IntroductionSection, MethodologySection, ResultsSection, ConclusionSection]

  /** A section written under its heading. */
  function Headed(p: PaperText, section: (Field, string)): string {
    section.1 + Get(p, section.0).GetOr("")
  }

  /** One section's contribution: its headed text if it is present, nothing otherwise. */
  function Piece(p: PaperText, section: (Field, string)): seq<string> {
    if Filled(p, section.0) then [Headed(p, section)] else []
  }

  /** The headed text of each present section of `sections`, in the order given. */
  function Present(p: PaperText, sections: seq<(Field, string)>): (parts: seq<string>)
    ensures |parts| <= |sections|
  {
    if sections == [] then []
    else Present(p, sections[..|sections| - 1]) + Piece(p, sections[|sections| - 1])
  }

  /** The main content: the present main sections joined by blank lines, or the full text when none is present. */
  function MainContent(p: PaperText): string {
    var parts := Present(p, MainSections);
    if parts == [] then p.fullText else Join(parts, "\n\n")
  }

  /** Assembles the main content section by section. */
  method GetMainContent(p: PaperText) returns (r: string)
    ensures r == MainContent(p)
  {
    SectionNames();
    ghost var done: seq<(Field, string)> := [];
    var mainSections: seq<string> := [];
    ghost var before0 := mainSections;
    if HasSection(p, "abstract") {
      mainSections := mainSections + ["Abstract:\n" + p.abstractText.value];
    }
    AppendStep(p, done, AbstractSection, "abstract", before0, mainSections);
    done := done + [AbstractSection];
    ghost var before1 := mainSections;
    if HasSection(p, "introduction") {
      mainSections := mainSections + ["Introduction:\n" + p.introduction.value];
    }
    AppendStep(p, done, IntroductionSection, "introduction", before1, mainSections);
    done := done + [IntroductionSection];
    ghost var before2 := mainSections;
    if HasSection(p, "methodology") {
      mainSections := mainSections + ["Methodology:\n" + p.methodology.value];
    }
    AppendStep(p, done, MethodologySection, "methodology", before2, mainSections);
    done := done + [MethodologySection];
    ghost var before3 := mainSections;
    if HasSection(p, "results") {
      mainSections := mainSections + ["Results:\n" + p.results.value];
    }
    AppendStep(p, done, ResultsSection, "results", before3, mainSections);
    done := done + [ResultsSection];
    ghost var before4 := mainSections;
    if HasSection(p, "conclusion") {
      mainSections := mainSections + ["Conclusion:\n" + p.conclusion.value];
    }
    AppendStep(p, done, ConclusionSection, "conclusion", before4, mainSections);
    done := done + [ConclusionSection];
    MainSectionsInOrder();
    r := if mainSections != [] then Join(mainSections, "\n\n") else p.fullText;
  }

  /** The names the record's queries use denote the attributes of the same name. */
  lemma SectionNames()
    ensures FieldNamed("full_text") == Some(FullText)
    ensures FieldNamed("abstract") == Some(Abstract)
    ensures FieldNamed("introduction") == Some(Introduction)
    ensures FieldNamed("methodology") == Some(Methodology)
    ensures FieldNamed("results") == Some(Results)
    ensures FieldNamed("conclusion") == Some(Conclusion)
    ensures FieldNamed("references") == Some(References)
  {
  }

  lemma MainSectionsInOrder()
    ensures [] + [AbstractSection] + [IntroductionSection] + [MethodologySection] + [ResultsSection] + [ConclusionSection] == MainSections
  {
  }

  /** One assembling step: testing a section and appending its headed text extends the list by its piece. */
  lemma AppendStep(p: PaperText, done: seq<(Field, string)>, section: (Field, string), name: string, before: seq<string>, after: seq<string>)
    requires name == Name(section.0) && before == Present(p, done)
    requires after == if HasSection(p, name) then before + [section.1 + Get(p, section.0).value] else before
    ensures after == Present(p, done + [section])
  {
    assert (done + [section])[..|done|] == done;
    NameRoundTrip(section.0);
  }

  /** A record built from the full text alone has every section empty and none present. */
  lemma DefaultSectionsEmpty(t: string)
    ensures var p := PaperText(t);
      p.abstractText == p.introduction == p.methodology == p.results == p.conclusion == p.references == Some("")
    ensures forall f :: f in Sections ==> !SectionSummary(PaperText(t))[Name(f)]
  {
    var p := PaperText(t);
    forall f | f in Sections ensures !Filled(p, f) {
      assert Get(p, f) == Some("");
    }
  }

  /** `HasSection` is false for a name that is not an attribute of the record. */
  lemma UnknownSectionAbsent(p: PaperText, name: string)
    requires name !in {"full_text", "abstract", "introduction", "methodology", "results", "conclusion", "references"}
    ensures !HasSection(p, name)
  {
  }

  /** A main section appears in the main content list iff it is present; references never do. */
  lemma {:induction false} PresentExactly(p: PaperText, sections: seq<(Field, string)>, x: string)
    ensures x in Present(p, sections) <==> exists i :: 0 <= i < |sections| && Filled(p, sections[i].0) && x == Headed(p, sections[i])
  {
    if sections != [] {
      var n := |sections| - 1;
      var init := sections[..n];
      PresentExactly(p, init, x);
      if x in Present(p, sections) && x !in Piece(p, sections[n]) {
        var i :| 0 <= i < |init| && Filled(p, init[i].0) && x == Headed(p, init[i]);
        assert sections[i] == init[i];
      }
      if exists i :: 0 <= i < |sections| && Filled(p, sections[i].0) && x == Headed(p, sections[i]) {
        var i :| 0 <= i < |sections| && Filled(p, sections[i].0) && x == Headed(p, sections[i]);
        if i < n {
          assert init[i] == sections[i];
        }
      }
    }
  }

  /** With no main section present the main content is the full text, unchanged. */
  lemma MainContentFallback(p: PaperText)
    requires forall i :: 0 <= i < |MainSections| ==> !Filled(p, MainSections[i].0)
    ensures MainContent(p) == p.fullText
  {
    if Present(p, MainSections) != [] {
      var x := Present(p, MainSections)[0];
      PresentExactly(p, MainSections, x);
    }
  }

  /** Otherwise the main content is the present sections joined by blank lines. */
  lemma MainContentJoined(p: PaperText)
    requires exists i :: 0 <= i < |MainSections| && Filled(p, MainSections[i].0)
    ensures MainContent(p) == Join(Present(p, MainSections), "\n\n")
  {
    var i :| 0 <= i < |MainSections| && Filled(p, MainSections[i].0);
    PresentExactly(p, MainSections, Headed(p, MainSections[i]));
  }

  /** The references section never influences the main content. */
  lemma {:induction false} PresentIgnoresReferences(p: PaperText, sections: seq<(Field, string)>, refs: Option<string>)
    requires forall i :: 0 <= i < |sections| ==> sections[i].0 != References
    ensures Present(p.(references := refs), sections) == Present(p, sections)
  {
    if sections != [] {
      PresentIgnoresReferences(p, sections[..|sections| - 1], refs);
    }
  }

  lemma MainContentIgnoresReferences(p: PaperText, refs: Option<string>)
    ensures MainContent(p.(references := refs)) == MainContent(p)
  {
    PresentIgnoresReferences(p, MainSections, refs);
  }
}
