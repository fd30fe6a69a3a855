/**
 * The parts of `App` (src/App.jsx) that feed the locator: cleaning a citation
 * of its `(Para N of the document)` markers before it is handed to the viewer,
 * and the chat / modal state updated by `handleSubmit`, `openPdfModel` and
 * `closePdfModel`.
 */
module App {
  import opened Wrappers
  import opened Strings

  datatype Citation = Citation(text: string, source: string, link: string)

  /** What the question-answering service returns for a query. */
  datatype QaResponse = QaResponse(answer: string, citations: seq<Citation>)

  // ----- Citation cleaning: text.replace(/\s*\(Para \d+ of the document\)/g, '').trim() -----

  const MarkerOpen: string := "(Para "
  const MarkerClose: string := " of the document)"

  /** `\(Para \d+ of the document\)`: the literal parts around one or more ASCII digits. */
  ghost predicate IsParaRef(t: string) {
    && |t| > |MarkerOpen| + |MarkerClose|
    && t[..|MarkerOpen|] == MarkerOpen
    && t[|t| - |MarkerClose|..] == MarkerClose
    && AllDigits(t[|MarkerOpen|..|t| - |MarkerClose|])
  }

  /** Text matched by the whole pattern: whitespace, then a paragraph reference. */
  ghost predicate IsMarker(m: string) {
    exists k :: 0 <= k <= |m| && AllSpace(m[..k]) && IsParaRef(m[k..])
  }

  predicate StartsWith(t: string, prefix: string) {
    |prefix| <= |t| && t[..|prefix|] == prefix
  }

  /** Length of the match of `\(Para \d+ of the document\)` at the start of `t`. */
  function ParaRefLength(t: string): (r: Option<nat>)
    ensures r.Some? ==> |MarkerOpen| + |MarkerClose| < r.value <= |t|
  {
    if StartsWith(t, MarkerOpen) then
      var d := DigitRun(t[|MarkerOpen|..]);
      if d > 0 && StartsWith(t[|MarkerOpen| + d..], MarkerClose) then
        Some(|MarkerOpen| + d + |MarkerClose|)
      else None
    else None
  }

  /** What `ParaRefLength` accepts is a paragraph reference, and it starts with `(`. */
  lemma ParaRefSound(t: string)
    requires ParaRefLength(t).Some?
    ensures t[0] == '('
    ensures IsParaRef(t[..ParaRefLength(t).value])
  {
    var d := DigitRun(t[|MarkerOpen|..]);
    var n := |MarkerOpen| + d + |MarkerClose|;
    var u := t[..n];
    assert t[..|MarkerOpen|][0] == t[0];
    assert u[..|MarkerOpen|] == t[..|MarkerOpen|];
    assert u[|u| - |MarkerClose|..] == t[|MarkerOpen| + d..][..|MarkerClose|];
    assert u[|MarkerOpen|..|u| - |MarkerClose|] == t[|MarkerOpen|..][..d];
  }

  /**
   * Length of the match of `\s*\(Para \d+ of the document\)` at the start of `s`.
   * Backtracking cannot help the pattern: fewer spaces leave a space where `(`
   * is needed, fewer digits leave a digit where ` ` is needed; so the match, if
   * any, takes the maximal runs.
   */
  function MarkerLength(s: string): (r: Option<nat>)
    ensures r.Some? ==> |MarkerOpen| + |MarkerClose| < r.value <= |s|
  {
    var k := SpaceRun(s);
    match ParaRefLength(s[k..])
    case Some(n) => Some(k + n)
    case None => None
  }

  /** Whitespace followed by a paragraph reference is a marker. */
  lemma SpacesThenParaRef(s: string, k: nat, n: nat)
    requires k + n <= |s| && AllSpace(s[..k]) && IsParaRef(s[k..][..n])
    ensures IsMarker(s[..k + n])
  {
    var m := s[..k + n];
    assert m[..k] == s[..k];
    assert m[k..] == s[k..][..n];
  }

  /** Every match is whitespace followed by a paragraph reference. */
  lemma MarkerSound(s: string)
    requires MarkerLength(s).Some?
    ensures IsMarker(s[..MarkerLength(s).value])
  {
    var k := SpaceRun(s);
    var t := s[k..];
    var n := ParaRefLength(t).value;
    ParaRefSound(t);
    SpacesThenParaRef(s, k, n);
  }

  /** The first character of a match that is not whitespace is `(`. */
  lemma MarkerStartsAtParen(s: string)
    requires MarkerLength(s).Some?
    ensures SpaceRun(s) < |s| && s[SpaceRun(s)] == '('
  {
    var k := SpaceRun(s);
    var t := s[k..];
    ParaRefSound(t);
    assert k < |s| && s[k] == t[0];
  }

  /** `replace(/\s*\(Para \d+ of the document\)/g, '')`: scanning left to right,
      each match is deleted and the scan resumes after it. */
  function StripMarkers(s: string): string
    decreases |s|
  {
    if s == [] then []
    else match MarkerLength(s)
      case Some(n) => StripMarkers(s[n..])
      case None => [s[0]] + StripMarkers(s[1..])
  }

  /** The cleaned citation text handed to the viewer. */
  function CleanCitation(text: string): (r: string)
    ensures r == [] || (!IsSpace(r[0]) && !IsSpace(r[|r| - 1]))
    ensures |r| <= |text|
  {
    StripLength(text);
    Trim(StripMarkers(text))
  }

  lemma {:induction false} StripLength(s: string)
    ensures |StripMarkers(s)| <= |s|
    decreases |s|
  {
    if s != [] {
      match MarkerLength(s)
      case Some(n) => StripLength(s[n..]);
      case None => StripLength(s[1..]);
    }
  }

  /** No match of the pattern starts at any of the first `n` positions of `s`. */
  predicate NoMatchBefore(s: string, n: nat)
    requires n <= |s|
    decreases n
  {
    n == 0 || (MarkerLength(s).None? && NoMatchBefore(s[1..], n - 1))
  }

  /** No match of the pattern starts anywhere in `s`. */
  predicate HasNoMarker(s: string) {
    NoMatchBefore(s, |s|)
  }

  /** Text with no marker passes through the replacement unchanged. */
  lemma {:induction false} StripWithoutMarker(s: string)
    requires HasNoMarker(s)
    ensures StripMarkers(s) == s
    decreases |s|
  {
    if s != [] {
      StripWithoutMarker(s[1..]);
    }
  }

  /** A citation with no marker is only trimmed. */
  lemma CleanWithoutMarker(s: string)
    requires HasNoMarker(s)
    ensures CleanCitation(s) == Trim(s)
  {
    StripWithoutMarker(s);
  }

  /** `\(Para \d+ of the document\)` matches `(Para `, digits and ` of the document)`, whatever follows. */
  lemma ParaRefRecognized(digits: string, y: string)
    requires |digits| > 0 && AllDigits(digits)
    ensures ParaRefLength(MarkerOpen + digits + MarkerClose + y) == Some(|MarkerOpen| + |digits| + |MarkerClose|)
  {
    var t := MarkerOpen + digits + MarkerClose + y;
    assert StartsWith(t, MarkerOpen) by { assert t[..|MarkerOpen|] == MarkerOpen; }
    var after := t[|MarkerOpen|..];
    assert after == digits + (MarkerClose + y);
    assert DigitRun(after) == |digits| by {
      assert after[..|digits|] == digits;
      assert after[|digits|] == ' ';
      DigitRunIs(after, |digits|);
    }
    assert StartsWith(t[|MarkerOpen| + |digits|..], MarkerClose) by {
      assert t[|MarkerOpen| + |digits|..] == MarkerClose + y;
      assert (MarkerClose + y)[..|MarkerClose|] == MarkerClose;
    }
  }

  /** The whole pattern matches whitespace followed by a paragraph reference, whatever follows. */
  lemma MarkerRecognized(w: string, digits: string, y: string)
    requires AllSpace(w) && |digits| > 0 && AllDigits(digits)
    ensures MarkerLength(w + MarkerOpen + digits + MarkerClose + y) == Some(|w + MarkerOpen + digits + MarkerClose|)
  {
    var s := w + MarkerOpen + digits + MarkerClose + y;
    assert SpaceRun(s) == |w| by {
      assert s[..|w|] == w;
      assert s[|w|] == '(';
      SpaceRunIs(s, |w|);
    }
    assert s[|w|..] == MarkerOpen + digits + MarkerClose + y;
    ParaRefRecognized(digits, y);
  }

  /** No match can start inside text that holds no `(` and does not end in whitespace. */
  lemma {:induction false} NoMarkerStartsIn(x: string, rest: string)
    requires forall i :: 0 <= i < |x| ==> x[i] != '('
    requires x == [] || !IsSpace(x[|x| - 1])
    ensures NoMatchBefore(x + rest, |x|)
    decreases |x|
  {
    if x != [] {
      NoMarkerAtPlainStart(x, rest);
      NoMarkerStartsIn(x[1..], rest);
      ConsSplit(x, rest, rest);
    }
  }

  /** No match starts at the head of text whose prefix holds no `(` and does not end in whitespace. */
  lemma NoMarkerAtPlainStart(x: string, rest: string)
    requires x != [] && forall i :: 0 <= i < |x| ==> x[i] != '('
    requires !IsSpace(x[|x| - 1])
    ensures MarkerLength(x + rest).None?
  {
    var s := x + rest;
    CutLeft(x, rest, |x| - 1);
    SpaceRunStopsAt(s, |x| - 1);
    CutLeft(x, rest, SpaceRun(s));
    if MarkerLength(s).Some? {
      MarkerStartsAtParen(s);
    }
  }

  /** A match at the start of the text is deleted and the scan resumes right after it. */
  lemma StripAtMarker(m: string, y: string)
    requires MarkerLength(m + y) == Some(|m|)
    ensures StripMarkers(m + y) == StripMarkers(y)
  {
    assert (m + y)[|m|..] == y;
  }

  /** Where no match starts, the replacement keeps the first character and goes on with the rest. */
  lemma StripKeepsFirst(s: string)
    requires s != [] && MarkerLength(s).None?
    ensures StripMarkers(s) == [s[0]] + StripMarkers(s[1..])
  {
  }

  /** A prefix that starts no match still starts none once its first character is passed. */
  lemma NoMatchShift(x: string, rest: string)
    requires x != [] && NoMatchBefore(x + rest, |x|)
    ensures MarkerLength(x + rest).None?
    ensures NoMatchBefore(x[1..] + rest, |x| - 1)
  {
    ConsSplit(x, rest, rest);
  }

  /** Text at whose positions no match starts is kept as it is, and the scan goes on after it. */
  lemma {:induction false} StripAfterPrefix(x: string, t: string)
    requires NoMatchBefore(x + t, |x|)
    ensures StripMarkers(x + t) == x + StripMarkers(t)
    decreases |x|
  {
    if x == [] {
      assert x + t == t;
    } else {
      NoMatchShift(x, t);
      StripAfterPrefix(x[1..], t);
      StripKeepsFirst(x + t);
      ConsSplit(x, t, StripMarkers(t));
    }
  }

  /**
   * Every marker is removed together with the whitespace before it: when no
   * match starts inside the text `x` before it (so that `ws (Para N of the
   * document)` is the first match), `x` is kept, the marker disappears and the
   * scan carries on with what follows.
   */
  lemma CleanRemovesMarker(x: string, w: string, digits: string, y: string)
    requires NoMatchBefore(x + w + MarkerOpen + digits + MarkerClose + y, |x|)
    requires AllSpace(w) && |digits| > 0 && AllDigits(digits)
    ensures CleanCitation(x + w + MarkerOpen + digits + MarkerClose + y) == Trim(x + StripMarkers(y))
  {
    var m := w + MarkerOpen + digits + MarkerClose;
    AppendAssoc4(x, w, MarkerOpen, digits, MarkerClose);
    StripRemovesMarker(x, m, y, w, digits);
  }

  /** The replacement alone: the marker `m` after `x` is deleted. */
  lemma StripRemovesMarker(x: string, m: string, y: string, w: string, digits: string)
    requires NoMatchBefore(x + m + y, |x|)
    requires AllSpace(w) && |digits| > 0 && AllDigits(digits)
    requires m == w + MarkerOpen + digits + MarkerClose
    ensures StripMarkers(x + m + y) == x + StripMarkers(y)
  {
    MarkerRecognized(w, digits, y);
    StripAtMarker(m, y);
    AppendAssoc(x, m, y);
    StripAfterPrefix(x, m + y);
  }

  // The nested citation `(Para 1(Para 2 of the document) of the document)`,
  // cut as `x + m + y` around its inner marker `m`.

  /** No match starts inside `(Para 1`: at its `(` the digits are followed by `(`, not by ` of the document)`. */
  lemma NoMarkerInOuterOpening(x: string, m: string, y: string)
    requires x == MarkerOpen + "1" && m == MarkerOpen + "2" + MarkerClose && y == MarkerClose
    ensures NoMatchBefore(x + m + y, |x|)
  {
    var rest := m + y;
    var s := x + rest;
    AppendAssoc(x, m, y);
    CutLeft(m, y, 0);
    NoMarkerAtDigitThenParen(s, rest);
    OpeningTailPlain(x);
    NoMarkerStartsIn(x[1..], rest);
    ConsSplit(x, rest, rest);
  }

  /** `Para 1` holds no `(` and ends in a digit. */
  lemma OpeningTailPlain(x: string)
    requires x == MarkerOpen + "1"
    ensures forall i :: 0 <= i < |x[1..]| ==> x[1..][i] != '('
    ensures !IsSpace(x[|x| - 1])
  {
  }

  /** `(Para 1` directly followed by `(` is not the start of a match. */
  lemma NoMarkerAtDigitThenParen(s: string, rest: string)
    requires s == MarkerOpen + "1" + rest && rest != [] && rest[0] == '('
    ensures MarkerLength(s).None?
  {
    assert s[0] == '(';
    SpaceRunIs(s, 0);
    assert s[0..] == s;
    var after := s[|MarkerOpen|..];
    assert after == "1" + rest;
    assert after[..1] == "1" && after[1] == '(';
    DigitRunIs(after, 1);
    var tail := s[|MarkerOpen| + 1..];
    assert tail[0] == '(';
    assert !StartsWith(tail, MarkerClose) by {
      if |MarkerClose| <= |tail| {
        assert tail[..|MarkerClose|][0] == '(';
      }
    }
  }

  /** The inner marker is matched where it starts. */
  lemma InnerMarkerMatched(m: string, y: string)
    requires m == MarkerOpen + "2" + MarkerClose && y == MarkerClose
    ensures MarkerLength(m + y) == Some(|m|)
  {
    MarkerAtStart("2", y);
  }

  /** A paragraph reference at the very start of the text is a match of its own length. */
  lemma MarkerAtStart(digits: string, y: string)
    requires |digits| > 0 && AllDigits(digits)
    ensures MarkerLength(MarkerOpen + digits + MarkerClose + y) == Some(|MarkerOpen + digits + MarkerClose|)
  {
    MarkerRecognized("", digits, y);
    EmptyLeft("", MarkerOpen);
  }

  /** ` of the document)` holds no marker and is kept. */
  lemma CloseKept()
    ensures StripMarkers(MarkerClose) == MarkerClose
  {
    NoMarkerStartsIn(MarkerClose, []);
    assert MarkerClose + [] == MarkerClose;
    StripWithoutMarker(MarkerClose);
  }

  /** Deleting the inner marker joins `(Para 1` and ` of the document)`. */
  lemma StripNested(x: string, m: string, y: string)
    requires x == MarkerOpen + "1" && m == MarkerOpen + "2" + MarkerClose && y == MarkerClose
    ensures StripMarkers(x + m + y) == x + y
  {
    InnerMarkerMatched(m, y);
    NoMarkerInOuterOpening(x, m, y);
    CloseKept();
    StripInner(x, m, y);
  }

  /** A marker after text that starts no match, followed by text the scan keeps, is all that goes. */
  lemma StripInner(x: string, m: string, y: string)
    requires NoMatchBefore(x + m + y, |x|)
    requires MarkerLength(m + y) == Some(|m|)
    requires StripMarkers(y) == y
    ensures StripMarkers(x + m + y) == x + y
  {
    StripAtMarker(m, y);
    AppendAssoc(x, m, y);
    StripAfterPrefix(x, m + y);
  }

  /** A citation that is one whole marker, leading whitespace included, cleans to nothing. */
  lemma CleanWholeMarker(w: string, digits: string)
    requires AllSpace(w) && |digits| > 0 && AllDigits(digits)
    ensures CleanCitation(w + MarkerOpen + digits + MarkerClose) == ""
  {
    var c := w + MarkerOpen + digits + MarkerClose;
    MarkerRecognized(w, digits, []);
    AppendNil(c, []);
    StripAtMarker(c, []);
    assert StripMarkers(c) == [];
  }

  /**
   * Cleaning is not idempotent: deleting the inner marker of
   * `(Para 1(Para 2 of the document) of the document)` joins the text around
   * it into `(Para 1 of the document)`, a new marker a second cleaning deletes.
   */
  lemma CleanNotIdempotent()
    ensures var s := MarkerOpen + "1" + MarkerOpen + "2" + MarkerClose + MarkerClose;
      && CleanCitation(s) == MarkerOpen + "1" + MarkerClose
      && CleanCitation(CleanCitation(s)) == ""
  {
    var x, m, y := MarkerOpen + "1", MarkerOpen + "2" + MarkerClose, MarkerClose;
    assert x + m + y == MarkerOpen + "1" + MarkerOpen + "2" + MarkerClose + MarkerClose;
    StripNested(x, m, y);
    var c := x + y;
    assert c[0] == '(' && c[|c| - 1] == ')';
    TrimKeeps(c);
    EmptyLeft("", MarkerOpen);
    CleanWholeMarker("", "1");
  }

  // ----- Chat and modal state -----

  /** `!text.trim()`. */
  predicate IsBlank(text: string) {
    Trim(text) == ""
  }

  /** The state hooks of `App`. */
  class AppState {
    var query: string
    var answer: string
    var citations: seq<Citation>
    var isLoading: bool
    var querySubmitted: string
    var isPdfModelOpen: bool
    var pdfUrl: string
    var currentPdfSource: string
    var highlightCitationText: string

    constructor ()
      ensures query == "" && answer == "" && citations == [] && !isLoading && querySubmitted == ""
      ensures !isPdfModelOpen && pdfUrl == "" && currentPdfSource == "" && highlightCitationText == ""
    {
      query, answer, citations, isLoading, querySubmitted := "", "", [], false, "";
      isPdfModelOpen, pdfUrl, currentPdfSource, highlightCitationText := false, "", "", "";
    }

    /**
     * `handleSubmit` up to its `await`: a blank query changes nothing; otherwise
     * the query moves to `querySubmitted`, the input and the previous answer are
     * cleared and loading starts.
     */
    method HandleSubmit() returns (submitted: bool)
      modifies this`query, this`answer, this`citations, this`isLoading, this`querySubmitted
      ensures submitted <==> !AllSpace(old(query))
      ensures !submitted ==> unchanged(this)
      ensures submitted ==>
        && querySubmitted == old(query) && query == ""
        && answer == "" && citations == [] && isLoading
    {
      BlankIffAllSpace(query);
      if IsBlank(query) {
        return false;
      }
      isLoading := true;
      answer := "";
      citations := [];
      querySubmitted := query;
      query := "";
      return true;
    }

    /** `handleSubmit` after its `await`: the response is stored and loading ends. */
    method ReceiveAnswer(response: QaResponse)
      modifies this`answer, this`citations, this`isLoading
      ensures answer == response.answer && citations == response.citations && !isLoading
    {
      answer := response.answer;
      citations := response.citations;
      isLoading := false;
    }

    /** `openPdfModel(link, source, text)`: the modal opens on exactly those values. */
    method OpenPdfModel(link: string, source: string, text: string)
      modifies this`isPdfModelOpen, this`pdfUrl, this`currentPdfSource, this`highlightCitationText
      ensures isPdfModelOpen && pdfUrl == link && currentPdfSource == source && highlightCitationText == text
    {
      isPdfModelOpen := true;
      pdfUrl := link;
      currentPdfSource := source;
      highlightCitationText := text;
    }

    /** `closePdfModel()`: the modal closes and its three values are reset. */
    method ClosePdfModel()
      modifies this`isPdfModelOpen, this`pdfUrl, this`currentPdfSource, this`highlightCitationText
      ensures !isPdfModelOpen && pdfUrl == "" && currentPdfSource == "" && highlightCitationText == ""
    {
      isPdfModelOpen := false;
      pdfUrl := "";
      currentPdfSource := "";
      highlightCitationText := "";
    }

    /** A click on a citation's source button: the modal opens with the cleaned citation text. */
    method OpenCitation(citation: Citation)
      modifies this`isPdfModelOpen, this`pdfUrl, this`currentPdfSource, this`highlightCitationText
      ensures isPdfModelOpen && pdfUrl == citation.link && currentPdfSource == citation.source
      ensures highlightCitationText == CleanCitation(citation.text)
    {
      var cleanedCitationText := CleanCitation(citation.text);
      OpenPdfModel(citation.link, citation.source, cleanedCitationText);
    }
  }
}
