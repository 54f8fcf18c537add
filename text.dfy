/**
  The parts of Python's `str` and `re` behaviour that the ingestion code relies on, over ASCII text:
  `isspace`, `strip`, `lower`, `split()`, `split(c)`, `find`, `rfind`, `in`, `join` and
  `re.sub(r"\s+", " ", s)`.
 */
module Text {
  import opened Wrappers

  /** Python's `str.isspace` on ASCII: space, \t \n \v \f \r (9..13) and the separators 28..31. */
  predicate IsSpace(c: char) {
    c == ' ' || 9 <= c as int <= 13 || 28 <= c as int <= 31
  }

  /** The regex class `\d` on ASCII. */
  predicate IsDigit(c: char) {
    '0' <= c <= '9'
  }

  predicate IsLowerLetter(c: char) {
    'a' <= c <= 'z'
  }

  /** The regex class `\w` on ASCII. */
  predicate IsWordChar(c: char) {
    'a' <= c <= 'z' || 'A' <= c <= 'Z' || IsDigit(c) || c == '_'
  }

  /** `str.lower` on one ASCII character. */
  function LowerChar(c: char): char {
    if 'A' <= c <= 'Z' then (c as int + 32) as char else c
  }

  /** `str.lower`; on ASCII it keeps the length, so offsets found in the lowered copy index the original. */
  function Lower(s: string): (r: string)
    ensures |r| == |s|
    ensures forall i :: 0 <= i < |s| ==> r[i] == LowerChar(s[i])
  {
    seq(|s|, i requires 0 <= i < |s| => LowerChar(s[i]))
  }

  /** `bool(s.strip())`, stated directly: some character is not whitespace. */
  predicate NonBlank(s: string) {
    exists i :: 0 <= i < |s| && !IsSpace(s[i])
  }

  predicate AllSpaces(s: string) {
    forall i :: 0 <= i < |s| ==> IsSpace(s[i])
  }

  predicate AllDigits(s: string) {
    forall i :: 0 <= i < |s| ==> IsDigit(s[i])
  }

  /** No two adjacent characters are both whitespace. */
  predicate NoDoubleSpace(s: string) {
    forall i, j :: 0 <= i < |s| && 0 <= j < |s| && j == i + 1 ==> !(IsSpace(s[i]) && IsSpace(s[j]))
  }

  /** A slice of a text without double whitespace has none either. */
  lemma SliceNoDoubleSpace(c: string, lo: nat, hi: nat)
    requires lo <= hi <= |c| && NoDoubleSpace(c)
    ensures NoDoubleSpace(c[lo..hi])
  {
    var x := c[lo..hi];
    forall i, j | 0 <= i < |x| && 0 <= j < |x| && j == i + 1 ensures !(IsSpace(x[i]) && IsSpace(x[j])) {
      assert x[i] == c[lo + i] && x[j] == c[lo + j];
    }
  }

  /** A piece of `split()` output: non-empty and free of whitespace. */
  predicate IsWord(w: string) {
    w != [] && forall i :: 0 <= i < |w| ==> !IsSpace(w[i])
  }

  function LeadingSpaces(s: string): (n: nat)
    ensures n <= |s|
    ensures forall i :: 0 <= i < n ==> IsSpace(s[i])
    ensures n < |s| ==> !IsSpace(s[n])
    decreases |s|
  {
    if s == [] || !IsSpace(s[0]) then 0 else 1 + LeadingSpaces(s[1..])
  }

  function TrailingSpaces(s: string): (n: nat)
    ensures n <= |s|
    ensures forall i :: |s| - n <= i < |s| ==> IsSpace(s[i])
    ensures n < |s| ==> !IsSpace(s[|s| - 1 - n])
    decreases |s|
  {
    if s == [] || !IsSpace(s[|s| - 1]) then 0 else 1 + TrailingSpaces(s[..|s| - 1])
  }

  /** `str.lstrip()`. */
  function TrimStart(s: string): (r: string)
    ensures |r| <= |s|
    ensures r == [] || !IsSpace(r[0])
    ensures r == [] <==> !NonBlank(s)
  {
    s[LeadingSpaces(s)..]
  }

  /** `str.rstrip()`. */
  function TrimEnd(s: string): (r: string)
    ensures |r| <= |s| && r == s[..|r|]
    ensures r == [] || !IsSpace(r[|r| - 1])
    ensures AllSpaces(s[|r|..])
  {
    s[..|s| - TrailingSpaces(s)]
  }

  /** `str.strip()`: the slice of `s` between its leading and trailing whitespace. */
  function Strip(s: string): (r: string)
    ensures |r| <= |s|
    ensures LeadingSpaces(s) + |r| <= |s| && r == s[LeadingSpaces(s)..LeadingSpaces(s) + |r|]
    ensures AllSpaces(s[LeadingSpaces(s) + |r|..])
    ensures r == [] || (!IsSpace(r[0]) && !IsSpace(r[|r| - 1]))
    ensures r == [] <==> !NonBlank(s)
  {
    var t := TrimStart(s);
    var r := TrimEnd(t);
    assert s[LeadingSpaces(s) + |r|..] == t[|r|..];
    r
  }

  /** `re.sub(r"\s+", " ", s)`: every maximal run of whitespace becomes one space. */
  function Collapse(s: string): (r: string)
    ensures |r| <= |s|
    ensures forall i :: 0 <= i < |r| && IsSpace(r[i]) ==> r[i] == ' '
    ensures NoDoubleSpace(r)
    ensures s != [] ==> r != [] && (IsSpace(r[0]) <==> IsSpace(s[0]))
    decreases |s|
  {
    if s == [] then []
    else if IsSpace(s[0]) then " " + Collapse(TrimStart(s))
    else [s[0]] + Collapse(s[1..])
  }

  /** The length of the leading run of non-whitespace. */
  function WordLength(s: string): (n: nat)
    ensures n <= |s|
    ensures forall i :: 0 <= i < n ==> !IsSpace(s[i])
    ensures n < |s| ==> IsSpace(s[n])
    decreases |s|
  {
    if s == [] || IsSpace(s[0]) then 0 else 1 + WordLength(s[1..])
  }

  /** `str.split()` with no argument: the maximal runs of non-whitespace, in order. */
  function Words(s: string): (ws: seq<string>)
    ensures forall k :: 0 <= k < |ws| ==> IsWord(ws[k])
    ensures ws == [] <==> !NonBlank(s)
    decreases |s|
  {
    var t := TrimStart(s);
    if t == [] then []
    else
      var n := WordLength(t);
      [t[..n]] + Words(t[n..])
  }

  /** `sep.join(parts)`. */
  function Join(parts: seq<string>, sep: string): string
  {
    if parts == [] then []
    else if |parts| == 1 then parts[0]
    else parts[0] + sep + Join(parts[1..], sep)
  }

  /** `s.find(c, start)`, with None for -1. */
  function IndexOf(s: string, c: char, start: nat): (r: Option<nat>)
    ensures r.Some? ==> start <= r.value < |s| && s[r.value] == c
    ensures r.Some? ==> forall i :: start <= i < r.value ==> s[i] != c
    ensures r.None? ==> forall i :: start <= i < |s| ==> s[i] != c
    decreases |s| - start
  {
    if start >= |s| then None
    else if s[start] == c then Some(start)
    else IndexOf(s, c, start + 1)
  }

  /** `s.rfind(c)`, with None for -1. */
  function LastIndexOf(s: string, c: char): (r: Option<nat>)
    ensures r.Some? ==> r.value < |s| && s[r.value] == c
    ensures r.Some? ==> forall i :: r.value < i < |s| ==> s[i] != c
    ensures r.None? ==> forall i :: 0 <= i < |s| ==> s[i] != c
    decreases |s|
  {
    if s == [] then None
    else if s[|s| - 1] == c then Some(|s| - 1)
    else LastIndexOf(s[..|s| - 1], c)
  }

  /** `s.split(c)` for a one-character separator: the pieces between the occurrences of `c`. */
  function SplitOn(s: string, c: char): (parts: seq<string>)
    ensures |parts| >= 1
    ensures forall k :: 0 <= k < |parts| ==> c !in parts[k]
    decreases |s|
  {
    match IndexOf(s, c, 0)
    case None => [s]
    case Some(i) => [s[..i]] + SplitOn(s[i + 1..], c)
  }

  predicate OccursAt(hay: string, needle: string, i: int) {
    0 <= i && i + |needle| <= |hay| && hay[i..i + |needle|] == needle
  }

  /** Python's `needle in hay` on strings. */
  predicate Contains(hay: string, needle: string) {
    exists i :: 0 <= i <= |hay| - |needle| && OccursAt(hay, needle, i)
  }

  predicate EndsInSpace(s: string) {
    s != [] && IsSpace(s[|s| - 1])
  }

  /** The words of `s` joined by single spaces. */
  function SingleSpaced(s: string): (r: string)
    ensures r == [] <==> !NonBlank(s)
    ensures r == [] || (!IsSpace(r[0]) && !IsSpace(r[|r| - 1]))
  {
    JoinWordsEnds(Words(s));
    Join(Words(s), " ")
  }

  lemma LeadingSpacesAt(s: string, k: nat)
    requires k <= |s| && AllSpaces(s[..k]) && (k < |s| ==> !IsSpace(s[k]))
    ensures LeadingSpaces(s) == k
  {
    var n := LeadingSpaces(s);
    assert forall i :: 0 <= i < k ==> s[..k][i] == s[i];
  }

  lemma WordLengthAt(s: string, k: nat)
    requires k <= |s| && (forall i :: 0 <= i < k ==> !IsSpace(s[i])) && (k < |s| ==> IsSpace(s[k]))
    ensures WordLength(s) == k
  {
  }

  /** Joined words start and end with a non-space character. */
  lemma {:induction false} JoinWordsEnds(ws: seq<string>)
    requires forall k :: 0 <= k < |ws| ==> IsWord(ws[k])
    ensures Join(ws, " ") == [] <==> ws == []
    ensures Join(ws, " ") != [] ==> !IsSpace(Join(ws, " ")[0]) && !IsSpace(Join(ws, " ")[|Join(ws, " ")| - 1])
  {
    if |ws| > 1 {
      JoinWordsEnds(ws[1..]);
      var j := Join(ws[1..], " ");
      assert Join(ws, " ") == ws[0] + " " + j;
    }
  }

  lemma CollapseWordPrefix(w: string, rest: string)
    requires forall i :: 0 <= i < |w| ==> !IsSpace(w[i])
    ensures Collapse(w + rest) == w + Collapse(rest)
    decreases |w|
  {
    if w != [] {
      var s := w + rest;
      assert s[0] == w[0];
      assert s[1..] == w[1..] + rest;
      CollapseWordPrefix(w[1..], rest);
      assert Collapse(s) == [w[0]] + Collapse(w[1..] + rest);
      assert w == [w[0]] + w[1..];
    } else {
      assert w + rest == rest;
    }
  }

  /** How `split()` and `re.sub` take apart a string whose lstrip is non-empty: the first word, then the rest. */
  lemma SplitFirstWord(s: string) returns (w: string, rest: string)
    requires NonBlank(s)
    ensures IsWord(w) && (rest == [] || IsSpace(rest[0])) && |rest| < |s|
    ensures Words(s) == [w] + Words(rest)
    ensures Collapse(TrimStart(s)) == w + Collapse(rest)
    ensures s[|s| - |rest|..] == rest
    ensures rest == [] ==> !EndsInSpace(s)
  {
    var t := TrimStart(s);
    var n := WordLength(t);
    w, rest := t[..n], t[n..];
    assert t == w + rest;
    CollapseWordPrefix(w, rest);
    assert s[|s| - |t|..] == t;
    assert s[|s| - |rest|..] == t[n..];
    if rest == [] {
      assert s[|s| - 1] == t[|t| - 1];
    }
  }

  /** The concatenation step of `CollapseTrimmed`, over plain values. */
  lemma CollapseTrimmedStep(w: string, cs: string, crest: string, a: string, ws: seq<string>, ends: bool)
    requires cs == w + crest && crest == " " + a
    requires a == Join(ws, " ") + (if ws != [] && ends then " " else "")
    requires ws == [] ==> ends
    ensures cs == Join([w] + ws, " ") + (if ends then " " else "")
  {
    if ws != [] {
      JoinCons(w, ws);
    }
  }

  lemma BlankTail(rest: string)
    requires rest != [] && Words(rest) == []
    ensures EndsInSpace(rest) && SingleSpaced(rest) == []
  {
    assert !NonBlank(rest);
    assert IsSpace(rest[|rest| - 1]);
  }

  lemma JoinCons(w: string, ws: seq<string>)
    requires ws != []
    ensures Join([w] + ws, " ") == w + " " + Join(ws, " ")
  {
    assert ([w] + ws)[1..] == ws;
  }

  /** Collapsing after `lstrip` gives the words joined by one space, plus one space if `s` ends in whitespace. */
  lemma {:induction false} CollapseTrimmed(s: string)
    ensures Collapse(TrimStart(s)) == SingleSpaced(s) + (if Words(s) != [] && EndsInSpace(s) then " " else "")
    decreases |s|
  {
    if NonBlank(s) {
      var w, rest := SplitFirstWord(s);
      if rest != [] {
        CollapseTrimmed(rest);
        assert EndsInSpace(s) == EndsInSpace(rest) by {
          assert s[|s| - 1] == rest[|rest| - 1];
        }
        if Words(rest) == [] {
          BlankTail(rest);
        }
        CollapseTrimmedStep(w, Collapse(TrimStart(s)), Collapse(rest), Collapse(TrimStart(rest)), Words(rest), EndsInSpace(s));
      }
    }
  }

  /** `re.sub(r"\s+", " ", s).strip()` is the words of `s` joined by single spaces. */
  lemma StripOfCollapse(s: string)
    ensures Strip(Collapse(s)) == SingleSpaced(s)
  {
    var lead, trail := CollapsePadding(s);
    StripShape(Collapse(s), Collapse(TrimStart(s)), SingleSpaced(s), lead, trail);
  }

  /** `re.sub(r"\s+", " ", s)` is the words of `s` joined by single spaces, with at most one space on each side. */
  lemma CollapsePadding(s: string) returns (lead: bool, trail: bool)
    ensures Collapse(s) == (if lead then " " else "") + Collapse(TrimStart(s))
    ensures Collapse(TrimStart(s)) == SingleSpaced(s) + (if trail then " " else "")
  {
    lead, trail := s != [] && IsSpace(s[0]), Words(s) != [] && EndsInSpace(s);
    CollapseSplit(s);
    CollapseTrimmed(s);
  }

  /** `re.sub` turns a leading whitespace run into one space and leaves the rest to the stripped text. */
  lemma CollapseSplit(s: string)
    ensures Collapse(s) == (if s != [] && IsSpace(s[0]) then " " else "") + Collapse(TrimStart(s))
  {
    if s != [] && !IsSpace(s[0]) {
      LeadingSpacesAt(s, 0);
    }
  }

  /**
    Whitespace padding around a string that starts and ends with non-space is exactly what `strip`
    removes; here the padding is at most one space on each side.
   */
  lemma StripShape(c: string, ct: string, x: string, lead: bool, trail: bool)
    requires x == [] || (!IsSpace(x[0]) && !IsSpace(x[|x| - 1]))
    requires c == (if lead then " " else "") + ct && ct == x + (if trail then " " else "")
    ensures Strip(c) == x
  {
    var L := if lead then 1 else 0;
    if x == [] {
      assert !NonBlank(c) by {
        forall i | 0 <= i < |c| ensures IsSpace(c[i]) {
          if i < L { assert c[i] == ' '; } else { assert c[i] == ct[i - L]; }
        }
      }
    } else {
      assert c[L] == x[0];
      LeadingSpacesAt(c, L);
      assert TrimStart(c) == ct;
      TrimEndPadded(x, trail);
    }
  }

  lemma TrimEndPadded(x: string, trail: bool)
    requires x != [] && !IsSpace(x[|x| - 1])
    ensures TrimEnd(x + (if trail then " " else "")) == x
  {
    var ct := x + (if trail then " " else "");
    if trail {
      assert ct[..|ct| - 1] == x;
      assert TrailingSpaces(ct) == 1;
    } else {
      assert TrailingSpaces(ct) == 0;
    }
  }

  /** Trailing whitespace does not change `split()`. */
  lemma {:induction false} WordsAppendSpaces(x: string, sp: string)
    requires AllSpaces(sp)
    ensures Words(x + sp) == Words(x)
    decreases |x|
  {
    var t := TrimStart(x);
    if t == [] {
      BlankAppend(x, sp);
    } else {
      TrimStartAppend(x, sp);
      var n := WordLength(t);
      WordLengthAppend(t, sp);
      assert (t + sp)[..n] == t[..n];
      assert (t + sp)[n..] == t[n..] + sp;
      WordsAppendSpaces(t[n..], sp);
    }
  }

  lemma BlankAppend(x: string, sp: string)
    requires AllSpaces(sp) && !NonBlank(x)
    ensures !NonBlank(x + sp)
  {
    forall i | 0 <= i < |x + sp| ensures IsSpace((x + sp)[i]) {
      if i >= |x| { assert (x + sp)[i] == sp[i - |x|]; }
      else { assert IsSpace(x[i]); }
    }
  }

  lemma TrimStartAppend(x: string, sp: string)
    requires NonBlank(x)
    ensures TrimStart(x + sp) == TrimStart(x) + sp
  {
    var L := LeadingSpaces(x);
    assert (x + sp)[..L] == x[..L];
    LeadingSpacesAt(x + sp, L);
  }

  lemma WordLengthAppend(t: string, sp: string)
    requires AllSpaces(sp)
    ensures WordLength(t + sp) == WordLength(t)
  {
    var n := WordLength(t);
    if n < |t| {
      assert (t + sp)[n] == t[n];
    } else if sp != [] {
      assert (t + sp)[n] == sp[0];
    }
    WordLengthAt(t + sp, n);
  }

  lemma WordsOfStrip(s: string)
    ensures Words(Strip(s)) == Words(s)
  {
    var t := TrimStart(s);
    WordsOfTrimStart(s);
    var r := TrimEnd(t);
    TrimEndSplit(t);
    WordsAppendSpaces(r, t[|r|..]);
  }

  /** Leading whitespace does not change `split()`. */
  lemma WordsOfTrimStart(s: string)
    ensures Words(TrimStart(s)) == Words(s)
  {
    var t := TrimStart(s);
    LeadingSpacesAt(t, 0);
    assert TrimStart(t) == t;
  }

  lemma TrimEndSplit(t: string)
    ensures t == TrimEnd(t) + t[|TrimEnd(t)|..]
  {
  }

  /** `re.sub(r"\s+", " ", s.strip())` is also the words of `s` joined by single spaces. */
  lemma CollapseOfStrip(s: string)
    ensures Collapse(Strip(s)) == SingleSpaced(s)
  {
    var u := Strip(s);
    LeadingSpacesAt(u, 0);
    assert TrimStart(u) == u;
    CollapseTrimmed(u);
    WordsOfStrip(s);
  }
}
