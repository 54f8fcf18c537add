/**
  The regular expressions the section splitter searches for, as hand-written matchers on
  lower-cased ASCII text.

  Header patterns have the shape `P w1\s+w2...\s+wn s?` where the prefix P is empty, `\d+\s+` or
  `\d+\.?\s+`. Every quantifier in them is followed by a character it cannot consume (a digit run
  by `.` or whitespace, a whitespace run by a letter), so the backtracking match at a given start
  position is the greedy one: `MatchAt` computes it directly.

  End markers are `\n\d+\s+[a-z]`, `\n\d+\.\d+\s+[a-z]` and `\n<word>s?\b` for four words.
  `FindIter` scans for them the way `re.finditer` does, resuming after each match.
 */
module Headers {
  import opened Wrappers
  import opened Text

  /** The number of consecutive digits starting at `i`. */
  function DigitRun(t: string, i: nat): (n: nat)
    ensures i + n <= |t| || n == 0
    ensures forall k :: i <= k < i + n ==> IsDigit(t[k])
    ensures i + n < |t| ==> !IsDigit(t[i + n])
    decreases |t| - i
  {
    if i < |t| && IsDigit(t[i]) then 1 + DigitRun(t, i + 1) else 0
  }

  /** The number of consecutive whitespace characters starting at `i`. */
  function SpaceRun(t: string, i: nat): (n: nat)
    ensures i + n <= |t| || n == 0
    ensures forall k :: i <= k < i + n ==> IsSpace(t[k])
    ensures i + n < |t| ==> !IsSpace(t[i + n])
    decreases |t| - i
  {
    if i < |t| && IsSpace(t[i]) then 1 + SpaceRun(t, i + 1) else 0
  }

  /** The literal `w` occurs at position `i` of `t`. */
  predicate LiteralAt(t: string, w: string, i: nat) {
    i + |w| <= |t| && t[i..i + |w|] == w
  }

  /** What may precede the words of a header: nothing, `\d+\s+` or `\d+\.?\s+`. */
  datatype Prefix = Bare | Number | NumberDot

  /** A header pattern: a prefix, words separated by `\s+`, and an optional trailing `s`. */
  datatype HeaderPattern = HeaderPattern(prefix: Prefix, words: seq<string>, plural: bool)

  predicate IsLowerWord(w: string) {
    w != [] && forall k :: 0 <= k < |w| ==> IsLowerLetter(w[k])
  }

  /** Where the prefix of a header starting at `i` ends, if it matches. */
  function PrefixEnd(t: string, p: Prefix, i: nat): (r: Option<nat>)
    ensures r.Some? ==> i <= r.value <= |t|
  {
    match p
    case Bare => if i <= |t| then Some(i) else None
    case Number =>
      var d := DigitRun(t, i);
      var w := SpaceRun(t, i + d);
      if d == 0 || w == 0 then None else Some(i + d + w)
    case NumberDot =>
      var d := DigitRun(t, i);
      var j := if i + d < |t| && t[i + d] == '.' then i + d + 1 else i + d;
      var w := SpaceRun(t, j);
      if d == 0 || w == 0 then None else Some(j + w)
  }

  /** Where the words, separated by whitespace runs, end when the first starts at `i`. */
  function WordsEnd(t: string, words: seq<string>, i: nat): (r: Option<nat>)
    ensures r.Some? ==> i <= r.value <= |t|
    ensures r.Some? && words != [] ==> i + |words[0]| <= r.value
    decreases |words|
  {
    if words == [] then (if i <= |t| then Some(i) else None)
    else if !LiteralAt(t, words[0], i) then None
    else
      var j := i + |words[0]|;
      if |words| == 1 then Some(j)
      else
        var w := SpaceRun(t, j);
        if w == 0 then None
        else WordsEnd(t, words[1..], j + w)
  }

  /** The end of the match of `p` starting at `i`, if there is one. */
  function MatchAt(t: string, p: HeaderPattern, i: nat): (r: Option<nat>)
    ensures r.Some? ==> i <= r.value <= |t|
  {
    match PrefixEnd(t, p.prefix, i)
    case None => None
    case Some(j) =>
      match WordsEnd(t, p.words, j)
      case None => None
      case Some(e) => Some(if p.plural && e < |t| && t[e] == 's' then e + 1 else e)
  }

  /**
    The first position at or after `from`, up to `n`, where `f` gives an end, with that end: the
    scan `re.finditer` makes for its first item.
   */
  function FirstFrom(n: nat, f: nat -> Option<nat>, from: nat): (r: Option<(nat, nat)>)
    ensures r.Some? ==> from <= r.value.0 <= n && f(r.value.0) == Some(r.value.1)
    ensures r.Some? ==> forall k :: from <= k < r.value.0 ==> f(k).None?
    ensures r.None? ==> forall k :: from <= k <= n ==> f(k).None?
    decreases n + 1 - from
  {
    if from > n then None
    else match f(from)
      case Some(e) => Some((from, e))
      case None => FirstFrom(n, f, from + 1)
  }

  /** The first match of `p` at or after `from`, as (start, end): the first item `re.finditer` yields. */
  function LeftmostMatch(t: string, p: HeaderPattern, from: nat): Option<(nat, nat)> {
    FirstFrom(|t|, (k: nat) => MatchAt(t, p, k), from)
  }

  /** Some match of `p` exists anywhere in `t`. */
  predicate Matches(t: string, p: HeaderPattern)
  {
    exists k :: 0 <= k <= |t| && MatchAt(t, p, k).Some?
  }

  /** The leftmost match is a match, no earlier position matches, and there is one exactly when `p` matches anywhere. */
  lemma LeftmostMatchSpec(t: string, p: HeaderPattern)
    ensures var r := LeftmostMatch(t, p, 0);
      r.Some? ==> r.value.0 <= r.value.1 <= |t| && MatchAt(t, p, r.value.0) == Some(r.value.1)
    ensures var r := LeftmostMatch(t, p, 0);
      r.Some? ==> forall k :: 0 <= k < r.value.0 ==> MatchAt(t, p, k).None?
    ensures LeftmostMatch(t, p, 0).Some? <==> Matches(t, p)
  {
    var f := (k: nat) => MatchAt(t, p, k);
    var r := FirstFrom(|t|, f, 0);
    if r.Some? {
      assert f(r.value.0) == MatchAt(t, p, r.value.0);
      forall k | 0 <= k < r.value.0 ensures MatchAt(t, p, k).None? {
        assert f(k).None?;
      }
    } else {
      forall k | 0 <= k <= |t| ensures MatchAt(t, p, k).None? {
        assert f(k).None?;
      }
    }
  }

  /** The value `g` gives for the first element it gives one for. */
  function FirstHit<P>(pats: seq<P>, g: P -> Option<nat>): (r: Option<nat>)
    ensures r.Some? ==> exists k :: 0 <= k < |pats| && g(pats[k]) == r
  {
    if pats == [] then None
    else match g(pats[0])
      case Some(e) => Some(e)
      case None =>
        var r := FirstHit(pats[1..], g);
        assert forall k :: 0 <= k < |pats[1..]| ==> pats[1..][k] == pats[k + 1];
        r
  }

  /** `FirstHit` is None exactly when `g` gives nothing; otherwise it is what `g` gives for the first element it gives a value for. */
  lemma {:induction false} FirstHitSpec<P>(pats: seq<P>, g: P -> Option<nat>)
    ensures FirstHit(pats, g).None? <==> forall k :: 0 <= k < |pats| ==> g(pats[k]).None?
    ensures FirstHit(pats, g).Some? ==> exists k :: (0 <= k < |pats| && g(pats[k]) == FirstHit(pats, g) &&
      forall j :: 0 <= j < k ==> g(pats[j]).None?)
  {
    if pats != [] && g(pats[0]).None? {
      var rest := pats[1..];
      FirstHitSpec(rest, g);
      assert forall k :: 0 <= k < |rest| ==> rest[k] == pats[k + 1];
      if FirstHit(rest, g).Some? {
        var k :| 0 <= k < |rest| && g(rest[k]) == FirstHit(rest, g) && forall j :: 0 <= j < k ==> g(rest[j]).None?;
        assert g(pats[k + 1]) == FirstHit(pats, g);
        forall j | 0 <= j < k + 1 ensures g(pats[j]).None? {
          if j > 0 {
            assert pats[j] == rest[j - 1];
          }
        }
      }
    }
  }

  /** The end of the leftmost match of `p`, if it matches. */
  function LeftmostEnd(t: string, p: HeaderPattern): (r: Option<nat>)
    ensures r.Some? ==> r.value <= |t|
  {
    match LeftmostMatch(t, p, 0)
    case Some(m) => Some(m.1)
    case None => None
  }

  /**
    The header end chosen for a list of patterns: the end of the leftmost match of the first
    pattern, in list order, that matches at all (`HeaderEndSpec` states this).
   */
  function HeaderEnd(t: string, pats: seq<HeaderPattern>): (r: Option<nat>)
    ensures r.Some? ==> r.value <= |t|
  {
    FirstHit(pats, p => LeftmostEnd(t, p))
  }

  /** No pattern matches iff there is no header; otherwise the header is the first matching pattern's leftmost match. */
  lemma HeaderEndSpec(t: string, pats: seq<HeaderPattern>)
    ensures var r := HeaderEnd(t, pats);
      r.None? <==> forall k :: 0 <= k < |pats| ==> !Matches(t, pats[k])
    ensures var r := HeaderEnd(t, pats);
      r.Some? ==> exists k :: (0 <= k < |pats| && Matches(t, pats[k]) &&
        (forall j :: 0 <= j < k ==> !Matches(t, pats[j])) &&
        LeftmostMatch(t, pats[k], 0).Some? && r.value == LeftmostMatch(t, pats[k], 0).value.1)
  {
    var g := p => LeftmostEnd(t, p);
    FirstHitSpec(pats, g);
    forall k | 0 <= k < |pats| ensures g(pats[k]).Some? <==> Matches(t, pats[k]) {
      LeftmostMatchSpec(t, pats[k]);
    }
    if HeaderEnd(t, pats).Some? {
      var k :| 0 <= k < |pats| && g(pats[k]) == HeaderEnd(t, pats) && forall j :: 0 <= j < k ==> g(pats[j]).None?;
      assert LeftmostMatch(t, pats[k], 0).Some?;
    }
  }

  /** The next-section markers: `\n\d+\s+[a-z]`, `\n\d+\.\d+\s+[a-z]` and `\n<word>s?\b`. */
  datatype Marker = NumberedHeading | SubsectionHeading | Keyword(word: string, plural: bool)

  predicate WellFormedMarker(m: Marker) {
    m.Keyword? ==> IsLowerWord(m.word)
  }

  /** `\b` right after a word character that ends at `k`: the text ends or a non-word character follows. */
  predicate BoundaryAt(t: string, k: nat) {
    k >= |t| || !IsWordChar(t[k])
  }

  /** The end of the match of marker `m` starting at `i`, if there is one. */
  function MarkerEnd(t: string, m: Marker, i: nat): (r: Option<nat>)
    requires WellFormedMarker(m)
    ensures r.Some? ==> i < r.value <= |t| && t[i] == '\n'
  {
    if i >= |t| || t[i] != '\n' then None
    else match m
      case NumberedHeading =>
        var d := DigitRun(t, i + 1);
        var w := SpaceRun(t, i + 1 + d);
        var k := i + 1 + d + w;
        if d > 0 && w > 0 && k < |t| && IsLowerLetter(t[k]) then Some(k + 1) else None
      case SubsectionHeading =>
        var d := DigitRun(t, i + 1);
        var j := i + 1 + d;
        if d == 0 || j >= |t| || t[j] != '.' then None
        else
          var d2 := DigitRun(t, j + 1);
          var w := SpaceRun(t, j + 1 + d2);
          var k := j + 1 + d2 + w;
          if d2 > 0 && w > 0 && k < |t| && IsLowerLetter(t[k]) then Some(k + 1) else None
      case Keyword(word, plural) =>
        if !LiteralAt(t, word, i + 1) then None
        else
          var e := i + 1 + |word|;
          if plural && e < |t| && t[e] == 's' && BoundaryAt(t, e + 1) then Some(e + 1)
          else if BoundaryAt(t, e) then Some(e)
          else None
  }

  predicate MarkerAt(t: string, m: Marker, i: nat)
    requires WellFormedMarker(m)
  {
    MarkerEnd(t, m, i).Some?
  }

  /** The start offsets `re.finditer` yields for `m`, scanning from `from` and resuming after each match. */
  function FindIter(t: string, m: Marker, from: nat): seq<nat>
    requires WellFormedMarker(m)
    decreases |t| - from
  {
    if from >= |t| then []
    else match MarkerEnd(t, m, from)
      case Some(e) => [from] + FindIter(t, m, e)
      case None => FindIter(t, m, from + 1)
  }

  /** The first element of `s` greater than `b`, or `dflt` when there is none. */
  function FirstAbove(s: seq<nat>, b: nat, dflt: nat): nat {
    if s == [] then dflt
    else if s[0] > b then s[0]
    else FirstAbove(s[1..], b, dflt)
  }

  /** The smallest position at or after `from` where `m` matches, or `|t|` when there is none. */
  function LeastMarker(t: string, m: Marker, from: nat): (r: nat)
    requires WellFormedMarker(m)
    ensures r == |t| || (from <= r < |t| && MarkerAt(t, m, r))
    ensures forall i :: from <= i < r ==> !MarkerAt(t, m, i)
    decreases |t| - from
  {
    if from >= |t| then |t|
    else if MarkerAt(t, m, from) then from
    else LeastMarker(t, m, from + 1)
  }

  /** A numbered marker needs a digit right after its newline. */
  lemma NeedsDigit(t: string, q: nat)
    requires q + 1 < |t| && !IsDigit(t[q + 1])
    ensures !MarkerAt(t, NumberedHeading, q) && !MarkerAt(t, SubsectionHeading, q)
  {
    assert DigitRun(t, q + 1) == 0;
  }

  /** A newline inside a numbered marker's match is followed by whitespace or by the final letter. */
  lemma InsideNumbered(t: string, p: nat, q: nat)
    requires MarkerAt(t, NumberedHeading, p) && p < q < MarkerEnd(t, NumberedHeading, p).value && t[q] == '\n'
    ensures q + 1 < |t| && !IsDigit(t[q + 1])
  {
    var d := DigitRun(t, p + 1);
    var w := SpaceRun(t, p + 1 + d);
    var k := p + 1 + d + w;
    assert q != k;
    assert q + 1 <= k;
  }

  lemma InsideSubsection(t: string, p: nat, q: nat)
    requires MarkerAt(t, SubsectionHeading, p) && p < q < MarkerEnd(t, SubsectionHeading, p).value && t[q] == '\n'
    ensures q + 1 < |t| && !IsDigit(t[q + 1])
  {
    var d := DigitRun(t, p + 1);
    var j := p + 1 + d;
    var d2 := DigitRun(t, j + 1);
    var w := SpaceRun(t, j + 1 + d2);
    var k := j + 1 + d2 + w;
    assert q != k && q != j;
    assert q + 1 <= k;
  }

  /** A keyword marker's match holds no newline after its first character. */
  lemma InsideKeyword(t: string, word: string, plural: bool, p: nat, q: nat)
    requires IsLowerWord(word)
    requires MarkerAt(t, Keyword(word, plural), p) && p < q < MarkerEnd(t, Keyword(word, plural), p).value
    ensures t[q] != '\n'
  {
    assert t[p + 1..p + 1 + |word|] == word;
    if q < p + 1 + |word| {
      assert t[q] == word[q - p - 1];
    }
  }

  /** No match of a marker starts strictly inside another match of the same marker. */
  lemma NoMatchInside(t: string, m: Marker, p: nat, q: nat)
    requires WellFormedMarker(m) && MarkerAt(t, m, p) && p < q < MarkerEnd(t, m, p).value
    ensures !MarkerAt(t, m, q)
  {
    if t[q] == '\n' {
      match m
      case NumberedHeading =>
        InsideNumbered(t, p, q);
        NeedsDigit(t, q);
      case SubsectionHeading =>
        InsideSubsection(t, p, q);
        NeedsDigit(t, q);
      case Keyword(word, plural) =>
        InsideKeyword(t, word, plural, p, q);
    }
  }

  /** Positions that lie strictly inside a match hold no match, so `LeastMarker` may skip them. */
  lemma {:induction false} LeastMarkerSkip(t: string, m: Marker, a: nat, c: nat)
    requires WellFormedMarker(m) && a <= c
    requires forall i :: a <= i < c ==> !MarkerAt(t, m, i)
    ensures LeastMarker(t, m, a) == LeastMarker(t, m, c)
    decreases c - a
  {
    if a < c && a < |t| {
      LeastMarkerSkip(t, m, a + 1, c);
    }
  }

  /**
    The first offset above `b` that `re.finditer` yields is the smallest matching position above
    `b`: the non-overlapping scan misses no match start.
   */
  lemma {:induction false} FindIterFirstAbove(t: string, m: Marker, from: nat, b: nat)
    requires WellFormedMarker(m)
    ensures FirstAbove(FindIter(t, m, from), b, |t|) == LeastMarker(t, m, if from > b then from else b + 1)
    decreases |t| - from, 1
  {
    if from < |t| {
      if MarkerAt(t, m, from) {
        FirstAboveAtMatch(t, m, from, b);
      } else {
        FindIterFirstAbove(t, m, from + 1, b);
        FirstAboveAtNoMatch(t, m, from, b);
      }
    }
  }

  /** The step of `FindIterFirstAbove` where a match starts at `from`. */
  lemma {:induction false} FirstAboveAtMatch(t: string, m: Marker, from: nat, b: nat)
    requires WellFormedMarker(m) && from < |t| && MarkerAt(t, m, from)
    ensures FirstAbove(FindIter(t, m, from), b, |t|) == LeastMarker(t, m, if from > b then from else b + 1)
    decreases |t| - from, 0
  {
    var e := MarkerEnd(t, m, from).value;
    FindIterFirstAbove(t, m, e, b);
    assert FindIter(t, m, from) == [from] + FindIter(t, m, e);
    if from <= b {
      SkipMatch(t, m, from, b);
    }
  }

  /** The step of `FindIterFirstAbove` where no match starts at `from`. */
  lemma FirstAboveAtNoMatch(t: string, m: Marker, from: nat, b: nat)
    requires WellFormedMarker(m) && from < |t| && !MarkerAt(t, m, from)
    requires FirstAbove(FindIter(t, m, from + 1), b, |t|) == LeastMarker(t, m, if from + 1 > b then from + 1 else b + 1)
    ensures FirstAbove(FindIter(t, m, from), b, |t|) == LeastMarker(t, m, if from > b then from else b + 1)
  {
    assert MarkerEnd(t, m, from).None?;
    assert FindIter(t, m, from) == FindIter(t, m, from + 1);
    if from > b {
      LeastMarkerSkip(t, m, from, from + 1);
    } else {
      assert (if from + 1 > b then from + 1 else b + 1) == b + 1;
    }
  }

  /** Searching above `b` from a match that starts at or below `b` may resume after that match. */
  lemma SkipMatch(t: string, m: Marker, from: nat, b: nat)
    requires WellFormedMarker(m) && MarkerAt(t, m, from) && from <= b
    ensures var e := MarkerEnd(t, m, from).value;
      LeastMarker(t, m, b + 1) == LeastMarker(t, m, if e > b then e else b + 1)
  {
    var e := MarkerEnd(t, m, from).value;
    var hi := if e > b then e else b + 1;
    forall i | b + 1 <= i < hi ensures !MarkerAt(t, m, i) {
      NoMatchInside(t, m, from, i);
    }
    LeastMarkerSkip(t, m, b + 1, hi);
  }

  /**
    The earliest position at or after `from` where any of `ms` matches, or `|t|` when none does
    (`EarliestMarkerSpec` states this).
   */
  function EarliestMarker(t: string, ms: seq<Marker>, from: nat): (r: nat)
    requires forall k :: 0 <= k < |ms| ==> WellFormedMarker(ms[k])
    ensures r <= |t|
  {
    if ms == [] then |t|
    else
      var n := |ms| - 1;
      var a := EarliestMarker(t, ms[..n], from);
      var b := LeastMarker(t, ms[n], from);
      if a <= b then a else b
  }

  /** `EarliestMarker` is a match of one of the markers, the earliest at or after `from`, or the end of the text. */
  lemma {:induction false} EarliestMarkerSpec(t: string, ms: seq<Marker>, from: nat)
    requires forall k :: 0 <= k < |ms| ==> WellFormedMarker(ms[k])
    ensures var r := EarliestMarker(t, ms, from);
      r == |t| || (from <= r < |t| && exists k :: 0 <= k < |ms| && MarkerAt(t, ms[k], r))
    ensures var r := EarliestMarker(t, ms, from);
      forall i, k :: from <= i < r && 0 <= k < |ms| ==> !MarkerAt(t, ms[k], i)
  {
    if ms != [] {
      var n := |ms| - 1;
      EarliestMarkerSpec(t, ms[..n], from);
      EarliestStep(t, ms, from, EarliestMarker(t, ms[..n], from), LeastMarker(t, ms[n], from));
    }
  }

  /** The step of `EarliestMarkerSpec`: adding the last marker's least position to the earliest of the others. */
  lemma EarliestStep(t: string, ms: seq<Marker>, from: nat, a: nat, b: nat)
    requires ms != [] && forall k :: 0 <= k < |ms| ==> WellFormedMarker(ms[k])
    requires var n := |ms| - 1;
      (a == |t| || (from <= a < |t| && exists k :: 0 <= k < n && MarkerAt(t, ms[..n][k], a))) &&
      (forall i, k :: from <= i < a && 0 <= k < n ==> !MarkerAt(t, ms[..n][k], i))
    requires b == LeastMarker(t, ms[|ms| - 1], from)
    ensures var r := if a <= b then a else b;
      (r == |t| || (from <= r < |t| && exists k :: 0 <= k < |ms| && MarkerAt(t, ms[k], r))) &&
      (forall i, k :: from <= i < r && 0 <= k < |ms| ==> !MarkerAt(t, ms[k], i))
  {
    var n := |ms| - 1;
    assert forall k :: 0 <= k < n ==> ms[..n][k] == ms[k];
    if a <= b && a < |t| {
      var k :| 0 <= k < n && MarkerAt(t, ms[..n][k], a);
      assert MarkerAt(t, ms[k], a);
    }
  }
}
