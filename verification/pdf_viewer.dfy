/**
 * The citation-to-page locator of `PdfViewer` (src/components/PdfViewer.jsx):
 * the ascending page scan with its early exit, the viewer state it drives,
 * Previous/Next navigation, and the character-diff helper.
 *
 * The PDF engine is abstracted: a document either fails to load or is a
 * sequence of pages, each of which either yields its text fragments in
 * emission order or throws while being fetched or read.
 */
module PdfViewer {
  import opened Wrappers
  import opened Strings
  import opened Normalizer

  datatype PageContent = Extracted(fragments: seq<string>) | ExtractionFails

  datatype Pdf = Unloadable | Loaded(pages: seq<PageContent>)

  /** How a scan ends: a matching page, every page examined without a match,
      or the page whose extraction threw and aborted the scan. Pages are 1-based. */
  datatype ScanResult = Found(page: nat) | NotFound | Aborted(page: nat)

  /** `needle` occurs in `text` starting at index `k`. */
  predicate OccursAt(text: string, needle: string, k: int) {
    0 <= k && k + |needle| <= |text| && text[k..k + |needle|] == needle
  }

  /** `text.includes(needle)`: `needle` occurs contiguously in `text`. */
  predicate Contains(text: string, needle: string) {
    exists k :: 0 <= k <= |text| - |needle| && OccursAt(text, needle, k)
  }

  /** The normalized text of one page: its fragments joined with a space, then normalized. */
  function PageText(fragments: seq<string>): string {
    AggressiveNormalize(Some(Join(fragments, " ")))
  }

  /** The match test of the scan: a non-empty target that the page text contains. */
  predicate PageMatches(target: string, fragments: seq<string>) {
    target != "" && Contains(PageText(fragments), target)
  }

  // ----- The scan, as a reference function and as the source's loop -----

  /** The outcome of scanning `pages` in ascending order from page `i`. */
  function LocateFrom(target: string, pages: seq<PageContent>, i: nat): ScanResult
    requires 1 <= i <= |pages| + 1
    decreases |pages| + 1 - i
  {
    if i == |pages| + 1 then NotFound
    else match pages[i - 1]
      case ExtractionFails => Aborted(i)
      case Extracted(fragments) =>
        if PageMatches(target, fragments) then Found(i) else LocateFrom(target, pages, i + 1)
  }

  function Locate(target: string, pages: seq<PageContent>): ScanResult {
    LocateFrom(target, pages, 1)
  }

  /** Every page before page `i` was extracted and did not match. */
  ghost predicate PassedBefore(target: string, pages: seq<PageContent>, i: nat) {
    i <= |pages| + 1
    && forall j :: 0 <= j < i - 1 ==> pages[j].Extracted? && !PageMatches(target, pages[j].fragments)
  }

  /** What the source promises of a scan: the first matching page, or the first
      failing page, with every page before it passed over; otherwise no page matched. */
  ghost predicate IsFirstMatch(target: string, pages: seq<PageContent>, r: ScanResult) {
    match r
    case Found(i) =>
      1 <= i <= |pages| && pages[i - 1].Extracted?
      && PageMatches(target, pages[i - 1].fragments) && PassedBefore(target, pages, i)
    case Aborted(i) =>
      1 <= i <= |pages| && pages[i - 1].ExtractionFails? && PassedBefore(target, pages, i)
    case NotFound =>
      PassedBefore(target, pages, |pages| + 1)
  }

  lemma {:induction false} LocateFromIsFirstMatch(target: string, pages: seq<PageContent>, i: nat)
    requires 1 <= i <= |pages| + 1 && PassedBefore(target, pages, i)
    ensures IsFirstMatch(target, pages, LocateFrom(target, pages, i))
    decreases |pages| + 1 - i
  {
    if i <= |pages| && pages[i - 1].Extracted? && !PageMatches(target, pages[i - 1].fragments) {
      PassedStep(target, pages, i);
      LocateFromIsFirstMatch(target, pages, i + 1);
    } else {
      LocateFromStops(target, pages, i);
    }
  }

  /** A page that was extracted and did not match is passed over. */
  lemma PassedStep(target: string, pages: seq<PageContent>, i: nat)
    requires 1 <= i <= |pages| && PassedBefore(target, pages, i)
    requires pages[i - 1].Extracted? && !PageMatches(target, pages[i - 1].fragments)
    ensures PassedBefore(target, pages, i + 1)
    ensures LocateFrom(target, pages, i) == LocateFrom(target, pages, i + 1)
  {
  }

  /** The scan stops at page `i` when the pages are exhausted, page `i` throws or page `i` matches. */
  lemma LocateFromStops(target: string, pages: seq<PageContent>, i: nat)
    requires 1 <= i <= |pages| + 1 && PassedBefore(target, pages, i)
    requires i <= |pages| ==> pages[i - 1].ExtractionFails? || PageMatches(target, pages[i - 1].fragments)
    ensures IsFirstMatch(target, pages, LocateFrom(target, pages, i))
  {
  }

  /** The scan returns the lowest matching page, having passed over every page before it. */
  lemma LocateIsFirstMatch(target: string, pages: seq<PageContent>)
    ensures IsFirstMatch(target, pages, Locate(target, pages))
  {
    LocateFromIsFirstMatch(target, pages, 1);
  }

  /** The first-match description admits exactly one outcome. */
  lemma FirstMatchUnique(target: string, pages: seq<PageContent>, r1: ScanResult, r2: ScanResult)
    requires IsFirstMatch(target, pages, r1) && IsFirstMatch(target, pages, r2)
    ensures r1 == r2
  {
  }

  /** An empty target matches no page, so the scan never finds one. */
  lemma EmptyTargetNeverFound(pages: seq<PageContent>)
    ensures !Locate("", pages).Found?
  {
    LocateIsFirstMatch("", pages);
  }

  /** Number of pages whose extraction the scan starts before it stops. */
  function PagesExamined(r: ScanResult, pageCount: nat): nat {
    match r
    case Found(i) => i
    case Aborted(i) => i
    case NotFound => pageCount
  }

  /**
   * The `for` loop of `loadPdfAndFindHighlight`: pages 1..totalPages in order,
   * stopping at the first match (`break`) or at the first page that throws.
   * `examined` counts the pages the loop fetched; no page after the match is
   * fetched, and an empty target still walks every page.
   */
  method ScanPages(target: string, pages: seq<PageContent>) returns (r: ScanResult, examined: nat)
    ensures r == Locate(target, pages)
    ensures examined == PagesExamined(r, |pages|)
    ensures target == "" ==> !r.Found?
  {
    EmptyTargetNeverFound(pages);
    r, examined := NotFound, 0;
    var i := 1;
    while i <= |pages|
      invariant 1 <= i <= |pages| + 1
      invariant examined == i - 1
      invariant Locate(target, pages) == LocateFrom(target, pages, i)
    {
      examined := i;
      match pages[i - 1] {
        case ExtractionFails =>
          r := Aborted(i);
          return;
        case Extracted(fragments) =>
          var pageText := PageText(fragments);
          var doesInclude := Contains(pageText, target);
          if target != "" && doesInclude {
            r := Found(i);
            return;
          }
      }
      i := i + 1;
    }
  }

  // ----- The viewer state -----

  /** The state of one `PdfViewer`: `numPages` is `None` for `null`. */
  class Viewer {
    var numPages: Option<nat>
    var pageNumber: int
    var highlightedPage: Option<nat>
    var loadingText: bool

    /** The displayed page stays within the document; a highlighted page is a page of it. */
    ghost predicate Valid()
      reads this
    {
      && pageNumber >= 1
      && (numPages.Some? && numPages.value > 0 ==> pageNumber <= numPages.value)
      && (highlightedPage.Some? ==> numPages.Some? && 1 <= highlightedPage.value <= numPages.value)
    }

    /** The page is drawn with the highlight outline. */
    predicate Outlined()
      reads this
    {
      highlightedPage == Some(pageNumber)
    }

    /** The navigation bar is rendered only when `numPages` is truthy. */
    predicate ShowsNavigation()
      reads this
    {
      numPages.Some? && numPages.value > 0
    }

    constructor ()
      ensures Valid()
      ensures numPages == None && pageNumber == 1 && highlightedPage == None && loadingText
    {
      numPages := None;
      pageNumber := 1;
      highlightedPage := None;
      loadingText := true;
    }

    /**
     * The effect body `loadPdfAndFindHighlight`: nothing happens without a URL;
     * otherwise the state is reset, the document loaded and scanned, and the
     * result applied. A load failure or a page that throws leaves zero pages.
     */
    method LoadPdfAndFindHighlight(pdfUrl: string, highlightCitationText: Option<string>, pdf: Pdf)
      requires Valid()
      modifies this
      ensures Valid()
      ensures pdfUrl == "" ==> unchanged(this)
      ensures pdfUrl != "" ==> !loadingText
      ensures pdfUrl != "" && pdf.Unloadable? ==>
        numPages == Some(0) && pageNumber == 1 && highlightedPage == None
      ensures pdfUrl != "" && pdf.Loaded? ==>
        var r := Locate(AggressiveNormalize(highlightCitationText), pdf.pages);
        && numPages == Some(if r.Aborted? then 0 else |pdf.pages|)
        && pageNumber == (if r.Found? then r.page else 1)
        && highlightedPage == (if r.Found? then Some(r.page) else None)
      ensures pdfUrl != "" ==>
        (Outlined() <==> pdf.Loaded? && Locate(AggressiveNormalize(highlightCitationText), pdf.pages).Found?)
    {
      if pdfUrl == "" {
        return;
      }
      var target := AggressiveNormalize(highlightCitationText);
      loadingText := true;
      numPages := None;
      pageNumber := 1;
      highlightedPage := None;
      match pdf {
        case Unloadable =>
          numPages := Some(0);
        case Loaded(pages) =>
          numPages := Some(|pages|);
          var r, _ := ScanPages(target, pages);
          LocateIsFirstMatch(target, pages);
          match r {
            case Found(i) =>
              pageNumber := i;
              highlightedPage := Some(i);
            case Aborted(_) =>
              numPages := Some(0);
            case NotFound =>
          }
      }
      loadingText := false;
    }

    /** The Previous button: enabled only when `pageNumber > 1`. */
    method Previous()
      requires Valid()
      modifies this`pageNumber
      ensures Valid()
      ensures old(ShowsNavigation()) && old(pageNumber) > 1 ==> pageNumber == old(pageNumber) - 1
      ensures !(old(ShowsNavigation()) && old(pageNumber) > 1) ==> pageNumber == old(pageNumber)
    {
      if ShowsNavigation() && pageNumber > 1 {
        pageNumber := pageNumber - 1;
      }
    }

    /** The Next button: enabled only when `pageNumber < numPages`. */
    method Next()
      requires Valid()
      modifies this`pageNumber
      ensures Valid()
      ensures old(ShowsNavigation()) && old(pageNumber) < numPages.value ==> pageNumber == old(pageNumber) + 1
      ensures !(old(ShowsNavigation()) && old(pageNumber) < numPages.value) ==> pageNumber == old(pageNumber)
    {
      if ShowsNavigation() && pageNumber < numPages.value {
        pageNumber := pageNumber + 1;
      }
    }
  }

  // ----- compareStringsAndHighlightDiff -----

  function Min(a: nat, b: nat): nat {
    if a <= b then a else b
  }

  /** One position of the diff: the shared character, or `[c1:c2]` where they differ. */
  function DiffMark(c1: char, c2: char): string {
    if c1 == c2 then [c1] else "[" + [c1] + ":" + [c2] + "]"
  }

  /** The diff text of the first `n` positions. */
  function Marked(s1: string, s2: string, n: nat): string
    requires n <= |s1| && n <= |s2|
  {
    if n == 0 then "" else Marked(s1, s2, n - 1) + DiffMark(s1[n - 1], s2[n - 1])
  }

  /** The note on the characters past the shorter string. */
  function ExtraNote(s1: string, s2: string): string {
    var m := Min(|s1|, |s2|);
    if |s1| > m then " (str1 extra: " + s1[m..] + ")"
    else if |s2| > m then " (str2 extra: " + s2[m..] + ")"
    else ""
  }

  /** The diff text reproduces the common prefix exactly when the strings agree on it. */
  lemma MarkedAgrees(s1: string, s2: string, n: nat)
    requires n <= |s1| && n <= |s2|
    ensures |Marked(s1, s2, n)| >= n
    ensures |Marked(s1, s2, n)| == n <==> s1[..n] == s2[..n]
    ensures Marked(s1, s2, n) == s1[..n] <==> s1[..n] == s2[..n]
  {
    MarkedLength(s1, s2, n);
    if s1[..n] == s2[..n] {
      MarkedCopies(s1, s2, n);
    }
  }

  /** Each position adds one character, or five where the strings differ. */
  lemma {:induction false} MarkedLength(s1: string, s2: string, n: nat)
    requires n <= |s1| && n <= |s2|
    ensures |Marked(s1, s2, n)| >= n
    ensures |Marked(s1, s2, n)| == n <==> s1[..n] == s2[..n]
  {
    if n > 0 {
      MarkedLength(s1, s2, n - 1);
      PrefixStep(s1, s2, n - 1);
    }
  }

  /** Where the strings agree, the diff text is the shared prefix. */
  lemma {:induction false} MarkedCopies(s1: string, s2: string, n: nat)
    requires n <= |s1| && n <= |s2| && s1[..n] == s2[..n]
    ensures Marked(s1, s2, n) == s1[..n]
  {
    if n > 0 {
      PrefixStep(s1, s2, n - 1);
      MarkedCopies(s1, s2, n - 1);
      TakeSnoc(s1, n);
    }
  }

  /** The first of the first `n` positions where the strings differ, or -1. */
  function FirstDiff(s1: string, s2: string, n: nat): int
    requires n <= |s1| && n <= |s2|
  {
    if n == 0 then -1
    else
      var f := FirstDiff(s1, s2, n - 1);
      if f == -1 && s1[n - 1] != s2[n - 1] then n - 1 else f
  }

  /** `FirstDiff` is -1 exactly when the prefixes agree, and otherwise the least differing index. */
  lemma {:induction false} FirstDiffIsLeast(s1: string, s2: string, n: nat)
    requires n <= |s1| && n <= |s2|
    ensures FirstDiff(s1, s2, n) == -1 <==> s1[..n] == s2[..n]
    ensures var f := FirstDiff(s1, s2, n);
      f != -1 ==> 0 <= f < n && s1[f] != s2[f] && s1[..f] == s2[..f]
  {
    if n > 0 {
      FirstDiffIsLeast(s1, s2, n - 1);
      PrefixStep(s1, s2, n - 1);
      var f := FirstDiff(s1, s2, n - 1);
      if f != -1 {
        DiffPersists(s1, s2, f, n);
      }
    }
  }

  /** Prefixes that cover a differing position differ. */
  lemma DiffPersists(s1: string, s2: string, f: nat, n: nat)
    requires f < n <= |s1| && n <= |s2| && s1[f] != s2[f]
    ensures s1[..n] != s2[..n]
  {
    assert s1[..n][f] == s1[f] && s2[..n][f] == s2[f];
  }

  lemma PrefixStep(s1: string, s2: string, i: nat)
    requires i < |s1| && i < |s2|
    ensures s1[..i + 1] == s2[..i + 1] <==> s1[..i] == s2[..i] && s1[i] == s2[i]
  {
    assert s1[..i + 1] == s1[..i] + [s1[i]];
    assert s2[..i + 1] == s2[..i] + [s2[i]];
    if s1[..i + 1] == s2[..i + 1] {
      assert s1[..i + 1][..i] == s1[..i];
      assert s2[..i + 1][..i] == s2[..i];
      assert s1[..i + 1][i] == s1[i];
      assert s2[..i + 1][i] == s2[i];
    }
  }

  /**
   * `compareStringsAndHighlightDiff`: `firstDiffIndex` is -1 exactly when the
   * strings agree on their first `min(len1, len2)` characters, and otherwise is
   * the least index below that bound where they differ.
   */
  method CompareStringsAndHighlightDiff(str1: string, str2: string) returns (diffStr: string, firstDiffIndex: int)
    ensures var m := Min(|str1|, |str2|);
      firstDiffIndex == -1 <==> str1[..m] == str2[..m]
    ensures firstDiffIndex != -1 ==>
      && 0 <= firstDiffIndex < Min(|str1|, |str2|)
      && str1[firstDiffIndex] != str2[firstDiffIndex]
      && str1[..firstDiffIndex] == str2[..firstDiffIndex]
    ensures diffStr == Marked(str1, str2, Min(|str1|, |str2|)) + ExtraNote(str1, str2)
  {
    diffStr := "";
    var minLength := Min(|str1|, |str2|);
    firstDiffIndex := -1;
    var i := 0;
    while i < minLength
      invariant 0 <= i <= minLength
      invariant diffStr == Marked(str1, str2, i)
      invariant firstDiffIndex == FirstDiff(str1, str2, i)
    {
      if str1[i] != str2[i] {
        if firstDiffIndex == -1 {
          firstDiffIndex := i;
        }
        diffStr := diffStr + ("[" + [str1[i]] + ":" + [str2[i]] + "]");
      } else {
        diffStr := diffStr + [str1[i]];
      }
      i := i + 1;
    }
    if |str1| > minLength {
      diffStr := diffStr + (" (str1 extra: " + str1[minLength..] + ")");
    } else if |str2| > minLength {
      diffStr := diffStr + (" (str2 extra: " + str2[minLength..] + ")");
    }
    FirstDiffIsLeast(str1, str2, minLength);
  }
}
