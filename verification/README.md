# Citation-to-page locator of the legal-assistant viewer

This project is a Dafny model of the part of the legal-assistant front end that
finds a cited passage in a PDF. The user clicks a citation under an answer. `App`
cleans the citation text of its `(Para N of the document)` markers and opens the
PDF modal with it. `PdfViewer` then normalizes the citation, walks the pages in
ascending order, normalizes each page's joined text fragments, and stops at the
first page whose text contains the citation. That page is shown and outlined.

Files and modules:

- `strings.dfy`
  - `Wrappers`: `Option`, which stands for JavaScript `null`/`undefined`.
  - `Strings`: the `\s` character class of JavaScript regular expressions,
    maximal whitespace/word/digit runs, and `String.prototype.trim`.
- `normalizer.dfy` (`Normalizer`): `aggressiveNormalize`, one function per
  step, in the source's order. The composition is proved equal to an
  independent reference: the whitespace-separated words of the filtered text,
  joined by single spaces (`Unwords(Words(…))`). The output alphabet,
  idempotence, insensitivity to the kind and length of whitespace runs, and the
  absorption of the fragment joiner are proved from that reference. Insensitivity
  to case and to punctuation is proved directly on the lower-casing and
  filtering steps.
- `pdf_viewer.dfy` (`PdfViewer`):
  - the page scan, twice: as a reference function `Locate` and as the source's
    loop `ScanPages`;
  - a declarative first-match description that both satisfy;
  - the `Viewer` class with the four state fields, the effect body
    `loadPdfAndFindHighlight`, and Previous/Next navigation;
  - `compareStringsAndHighlightDiff` as a loop, proved against recursive
    specifications.
- `app.dfy` (`App`):
  - the citation cleaner, `replace(/\s*\(Para \d+ of the document\)/g, '').trim()`,
    with a left-to-right match-and-delete model of the global replace;
  - the `AppState` class holding the chat and modal state hooks.

The PDF engine is abstracted. A document is either `Unloadable` or a sequence of
pages. Each page either yields its text fragments in emission order
(`Extracted`) or throws while being fetched or read (`ExtractionFails`).

Two behaviours of the code differ from what a reader might expect of a page
locator, and the model keeps them as the code has them:

- **A page that throws aborts the whole scan.** One might expect a bad page to be
  treated as empty and the scan to go on. Instead the exception leaves the loop,
  the `catch` sets `numPages` to 0, and no page after it is examined.
- **An empty normalized target is not short-circuited.** One might expect an
  empty target to return at once, without extracting any page. Instead the loop
  still fetches and normalizes every page. It never reports a match, only
  because the match condition tests the target's truthiness.

## Model

| member | source | states |
|---|---|---|
| `Normalizer.AggressiveNormalize` | src/components/PdfViewer.jsx:12-13 | A missing (`null`/`undefined`) or empty input normalizes to the empty string. |
| `Normalizer.LowerChar` | src/components/PdfViewer.jsx:15 | `toLowerCase` on one character: `A`-`Z` become `a`-`z`, and every other character is kept. No contract of its own: `NormalizeIgnoresCase` and `FilteredDropsAll` use it. |
| `Normalizer.IsKept` | src/components/PdfViewer.jsx:16 | The class `[a-z0-9\s]` that the filter keeps. No contract of its own: `RemoveDisallowedChar` states that the filter keeps exactly these characters. |
| `Normalizer.ToLower` | src/components/PdfViewer.jsx:15 | `toLowerCase` on ASCII letters. No contract of its own: `NormalizeIgnoresCase` and `FilteredConcat` state what the pipeline inherits from it. |
| `Normalizer.NormalizeNormalForm` | src/components/PdfViewer.jsx:14-18 | Every result holds only `a`-`z`, `0`-`9` and `' '`. It has no space at either end and no two adjacent spaces. |
| `Normalizer.RemoveDisallowed` | src/components/PdfViewer.jsx:16 | Every character the filter keeps is an ASCII lower-case letter, a digit or whitespace. The filter never lengthens the text. |
| `Normalizer.RemoveDisallowedChar` | src/components/PdfViewer.jsx:16 | On one character the filter keeps an allowed character (`[a-z0-9\s]`) and deletes any other. |
| `Normalizer.RemoveDisallowedConcat` | src/components/PdfViewer.jsx:16 | The filter distributes over concatenation. With the one-character case, its result is exactly the allowed characters of the input, in their order. |
| `Normalizer.RemoveDisallowedKeeps` | src/components/PdfViewer.jsx:16 | Text made only of allowed characters passes the filter unchanged. |
| `Normalizer.FilteredDropsAll` | src/components/PdfViewer.jsx:15-16 | Text none of whose characters is a letter, a digit or whitespace after lower-casing filters to nothing. |
| `Normalizer.NormalizeIgnoresPunctuation` | src/components/PdfViewer.jsx:14-18 | Deleting punctuation anywhere in the input leaves the normalized text unchanged. For example, `v.` matches `v` and `54-55` matches `5455`. |
| `Normalizer.FilteredConcat` | src/components/PdfViewer.jsx:15-16 | Lower-casing then filtering distributes over concatenation. |
| `Normalizer.CollapseSpaces` | src/components/PdfViewer.jsx:17 | `replace(/\s+/g, ' ')`. No contract of its own: `TrimCollapse` fixes it, together with `Strings.Trim`, against the words/unwords reference. |
| `Normalizer.TrimCollapse` | src/components/PdfViewer.jsx:17-18 | Collapsing whitespace runs and trimming give exactly the text's maximal non-space runs, joined by single spaces. |
| `Normalizer.NormalizeAsWords` | src/components/PdfViewer.jsx:14-18 | The source's four-step pipeline equals the reference: the words of the filtered text, single-spaced. |
| `Normalizer.UnwordsNormalForm` | src/components/PdfViewer.jsx:14-18 | Tokens over `[a-z0-9]` joined by single spaces are in normal form. The join is empty exactly when there are no tokens. |
| `Normalizer.WordsUnwords` | src/components/PdfViewer.jsx:17-18 | Round trip: splitting single-spaced tokens at whitespace gives back the same tokens. |
| `Normalizer.WordsAreTokens` | src/components/PdfViewer.jsx:16-17 | After filtering, every word is a non-empty token over `[a-z0-9]`. |
| `Normalizer.NormalizeOfUnwords` | src/components/PdfViewer.jsx:12-19 | Text already in normal form (tokens joined by single spaces) is a fixed point of the normalizer. |
| `Normalizer.NormalizeIdempotent` | src/components/PdfViewer.jsx:12-19 | Normalizing twice gives the same text as normalizing once, for every input including `null`. |
| `Normalizer.NormalizeIgnoresCase` | src/components/PdfViewer.jsx:15 | Inputs equal up to ASCII letter case normalize to the same text. |
| `Normalizer.WordsAroundSpaces` | src/components/PdfViewer.jsx:17 | A whitespace run between two texts separates their words and contributes none. |
| `Normalizer.NormalizeSpaceRun` | src/components/PdfViewer.jsx:17 | Any non-empty whitespace run, of any kind and length, normalizes like a single space. |
| `Normalizer.Join` | src/components/PdfViewer.jsx:81 | `join(' ')` over the page's fragments. No contract of its own: `WordsOfJoin` and `PageTextAbsorbsJoiner` state what the page text keeps of it. |
| `Normalizer.WordsOfJoin` | src/components/PdfViewer.jsx:80-82 | The words of fragments joined by any whitespace separator are the fragments' words, fragment after fragment. |
| `Normalizer.PageTextAbsorbsJoiner` | src/components/PdfViewer.jsx:80-82 | A page's normalized text is its fragments' words, single-spaced. Every non-empty whitespace joiner gives the same page text as `' '`. |
| `PdfViewer.Contains` | src/components/PdfViewer.jsx:87 | `pageText.includes(target)`: the target occurs contiguously in the page text at some index. No contract of its own: `PageMatches`, `LocateIsFirstMatch` and `ScanPages` use it. |
| `PdfViewer.PageText` | src/components/PdfViewer.jsx:80-82 | A page's text is its fragments joined with a space, then normalized. No contract of its own: `PageTextAbsorbsJoiner` states it is the fragments' words, single-spaced. |
| `PdfViewer.PageMatches` | src/components/PdfViewer.jsx:112 | The match test: the target is truthy and the page text includes it. No contract of its own: `EmptyTargetNeverFound` and `LocateIsFirstMatch` use it. |
| `PdfViewer.LocateFrom` | src/components/PdfViewer.jsx:77-118 | The scan from page `i` onward: a throwing page aborts, a matching page is found, otherwise the next page. No contract of its own: `LocateFromIsFirstMatch` fixes it. |
| `PdfViewer.Locate` | src/components/PdfViewer.jsx:75-119 | The whole ascending scan from page 1. No contract of its own: `LocateIsFirstMatch` and `FirstMatchUnique` fix it as the unique first-match outcome, and `ScanPages` is proved equal to it. |
| `PdfViewer.LocateFromIsFirstMatch` | src/components/PdfViewer.jsx:77-118 | Loop invariant of the scan: started at page `i` with every earlier page extracted and not matching, the outcome satisfies the first-match description. |
| `PdfViewer.LocateIsFirstMatch` | src/components/PdfViewer.jsx:75-119 | The scan returns one of three outcomes, each with every earlier page extracted and not matching: the lowest matching page (`Found`), the first page that throws (`Aborted`), or `NotFound` when every page was extracted and none matched. |
| `PdfViewer.FirstMatchUnique` | src/components/PdfViewer.jsx:77-118 | The first-match description admits exactly one outcome, so it determines the scan's result. |
| `PdfViewer.EmptyTargetNeverFound` | src/components/PdfViewer.jsx:112 | An empty normalized target never yields a found page. |
| `PdfViewer.ScanPages` | src/components/PdfViewer.jsx:75-119 | The loop with `break` returns the reference outcome. It fetches exactly the pages up to the matching or throwing page, and none after it. It fetches every page when nothing matches, even for an empty target. |
| `PdfViewer.Viewer.constructor` | src/components/PdfViewer.jsx:52-55 | The initial state: no page count, page 1, no highlight, loading. |
| `PdfViewer.Viewer.LoadPdfAndFindHighlight` | src/components/PdfViewer.jsx:62-125 | Without a URL nothing changes. Otherwise: a found page becomes both the displayed and the highlighted page; no match leaves page 1 with no highlight; a load failure or a page that throws sets `numPages` to 0 with no highlight; loading ends false. The outline shows exactly when the scan found a page. The navigation invariant is kept. |
| `PdfViewer.Viewer.Outlined` | src/components/PdfViewer.jsx:146 | The displayed page is drawn with the outline exactly when it is the highlighted page. No contract of its own: `LoadPdfAndFindHighlight` states when it holds. |
| `PdfViewer.Viewer.ShowsNavigation` | src/components/PdfViewer.jsx:140-153 | The page and the navigation bar render only when `numPages` is truthy. No contract of its own: `Previous` and `Next` are enabled only when it holds. |
| `PdfViewer.Viewer.Previous` | src/components/PdfViewer.jsx:153-161 | The button is enabled exactly when the navigation is shown and `pageNumber > 1`, and then moves one page back. Otherwise nothing changes. The highlight is never touched, and `1 <= pageNumber <= numPages` is kept. |
| `PdfViewer.Viewer.Next` | src/components/PdfViewer.jsx:163-169 | The button is enabled exactly when the navigation is shown and `pageNumber < numPages`, and then moves one page forward. Otherwise nothing changes. The highlight is never touched, and `1 <= pageNumber <= numPages` is kept. |
| `PdfViewer.MarkedAgrees` | src/components/PdfViewer.jsx:27-35 | The diff text is at least as long as the compared prefix. It equals that prefix exactly when the two strings agree on it. |
| `PdfViewer.MarkedLength` | src/components/PdfViewer.jsx:27-35 | The diff text of the first `n` positions is at least `n` characters long. It is exactly `n` long only when the prefixes agree, because a differing position writes the five-character `[c1:c2]`. |
| `PdfViewer.FirstDiffIsLeast` | src/components/PdfViewer.jsx:25-31 | The recorded index is -1 exactly when the prefixes agree. Otherwise it is the least position where they differ. |
| `PdfViewer.CompareStringsAndHighlightDiff` | src/components/PdfViewer.jsx:22-46 | `firstDiffIndex` is -1 exactly when the strings agree on their first `min(len1, len2)` characters. Otherwise it is the least index below that bound where they differ. `diffStr` is the per-position diff followed by the note on the longer string's remainder. |
| `Strings.IsSpace` | src/components/PdfViewer.jsx:16-17 | `\s`: the ECMAScript WhiteSpace and LineTerminator characters (tab, line feed, vertical tab, form feed, carriage return, space, U+00A0, U+1680, U+2000-U+200A, U+2028, U+2029, U+202F, U+205F, U+3000, U+FEFF). `trim` and the `\s*` of src/App.jsx:107 use the same set. No contract of its own: `TrimIsInfix`, `NormalizeSpaceRun` and `MarkerRecognized` use it. |
| `Strings.IsDigit` | src/App.jsx:107 | `\d` without the `u` flag: the ASCII digits `0`-`9`. No contract of its own: `ParaRefSound` states that the digits of a reference are these. |
| `Strings.Trim` | src/components/PdfViewer.jsx:18 | `String.prototype.trim`, also used at src/App.jsx:28 and 107. No contract of its own: `TrimIsInfix` characterizes it and `BlankIffAllSpace` states when it is empty. |
| `Strings.TrimIsInfix` | src/components/PdfViewer.jsx:18 | `trim` leaves an infix of its input with only whitespace around it. The infix neither starts nor ends with whitespace. |
| `Strings.BlankIffAllSpace` | src/App.jsx:28 | `!query.trim()` holds exactly when the query is made of whitespace only. |
| `App.IsBlank` | src/App.jsx:28 | `!query.trim()`: the trimmed query is empty. No contract of its own: `BlankIffAllSpace` states it holds exactly for whitespace-only queries, and `HandleSubmit` returns early on it. |
| `App.ParaRefLength` | src/App.jsx:107 | The length of a paragraph reference `\(Para \d+ of the document\)` at the start of the text, if there is one. A match is longer than the fixed parts together and fits the text. `ParaRefSound` states what it accepts. |
| `App.MarkerLength` | src/App.jsx:107 | The length of one match of the whole pattern at the start of the text: greedy whitespace, then a paragraph reference. A match is longer than the fixed parts and fits the text. `MarkerSound` and `MarkerRecognized` state exactly what it accepts. |
| `App.ParaRefSound` | src/App.jsx:107 | What the matcher accepts after the whitespace is `(Para `, one or more ASCII digits, then ` of the document)`. The match is case-sensitive and starts with `(`. |
| `App.MarkerSound` | src/App.jsx:107 | Every match of the pattern is whitespace followed by a paragraph reference. |
| `App.MarkerRecognized` | src/App.jsx:107 | Conversely, whitespace followed by a paragraph reference is matched in full, whatever text follows it. |
| `App.StripMarkers` | src/App.jsx:107 | The `/g` replace: scanning left to right, each match is deleted and the scan resumes after it; otherwise one character is kept. No contract of its own: `StripAfterPrefix`, `StripRemovesMarker`, `StripWithoutMarker` and `StripLength` fix it. |
| `App.StripLength` | src/App.jsx:107 | Deleting markers never lengthens the text. |
| `App.CleanCitation` | src/App.jsx:107 | The cleaned citation has no whitespace at either end and is never longer than the original. |
| `App.StripWithoutMarker` | src/App.jsx:107 | Text where no match starts passes through the global replace unchanged. |
| `App.CleanWithoutMarker` | src/App.jsx:107 | A citation holding no marker is only trimmed. |
| `App.StripAfterPrefix` | src/App.jsx:107 | A prefix at whose positions no match starts is kept as it is, and the replacement carries on with the rest. |
| `App.NoMarkerStartsIn` | src/App.jsx:107 | No match starts inside text that holds no `(` and does not end in whitespace, whatever follows it. |
| `App.StripRemovesMarker` | src/App.jsx:107 | When no match starts inside the prefix `x`, the first marker after it is deleted together with the whitespace before it. `x` is kept, and the rest is processed as if the marker had not been there. |
| `App.CleanRemovesMarker` | src/App.jsx:107 | Cleaning a citation deletes its first marker with the whitespace before it, keeps the text before it, and then trims. |
| `App.CleanWholeMarker` | src/App.jsx:107 | A citation that is one whole marker (whitespace, `(Para `, any digits, ` of the document)`) cleans to the empty string. |
| `App.CleanNotIdempotent` | src/App.jsx:107 | Cleaning is not idempotent. Deleting the inner marker of `(Para 1(Para 2 of the document) of the document)` leaves `(Para 1 of the document)`, which a second cleaning deletes. |
| `App.AppState.constructor` | src/App.jsx:15-25 | The initial state: empty query, answer, citations and modal values, not loading, modal closed. |
| `App.AppState.HandleSubmit` | src/App.jsx:27-34 | A blank or whitespace-only query changes no state. Otherwise the old query becomes `querySubmitted`; the query, answer and citations are cleared; loading starts. |
| `App.AppState.ReceiveAnswer` | src/App.jsx:50-52 | The response's answer and citations are stored and loading ends. |
| `App.AppState.OpenPdfModel` | src/App.jsx:59-64 | The modal opens holding exactly the given link, source and text. |
| `App.AppState.ClosePdfModel` | src/App.jsx:66-71 | The modal closes, and the URL, source and highlight text are reset to the empty string. |
| `App.AppState.OpenCitation` | src/App.jsx:106-112 | A click on a citation opens the modal with the citation's link and source and its cleaned text. |

## Left out

- The pdf.js calls (`getDocument`, `getPage`, `getTextContent`) and the worker setup are foreign asynchronous library code. A document is a parameter: `Unloadable`, or per-page fragment lists with a per-page "throws" case.
- The `console.log` output and the page-2 diagnostic block (src/components/PdfViewer.jsx:84-108) have no effect on state. The diff helper they call is modelled on its own.
- Stale runs of the effect are not cancelled when `pdfUrl` or the target changes. The interleaving of concurrent runs of the effect is not modelled: each run is one atomic call.
- `handleSubmit` is split at its `await`. The simulated network delay is not modelled. Its hard-coded response becomes the parameter of `ReceiveAnswer`.
- React rendering, the MUI dialog and transition, class names and textarea resizing are not modelled. `Outlined` and `ShowsNavigation` state which render conditions the JSX tests.
- `toLowerCase` is modelled on ASCII letters only. A few non-ASCII characters lower-case to an ASCII letter in full Unicode: the Kelvin sign becomes `k`, and `İ` becomes `i` followed by a combining dot. Those letters would survive the filter in the source and are dropped in the model.
- Strings are sequences of Unicode scalar values rather than UTF-16 code units. A character outside the Basic Multilingual Plane is one position here and two in JavaScript. This affects the positions `compareStringsAndHighlightDiff` reports. It cannot reach the scan: `includes` is applied only to normalized text, which holds only `[a-z0-9 ]`.
- The `|| ' '` fallbacks in the diff template are not modelled, because below `minLength` every indexed character exists and is truthy.
- App.CleanRemovesMarker: states the deletion of the first marker of a citation and the continuation after it. It does not state in one lemma that no match of the original text survives anywhere. `StripMarkers` defines that left-to-right deletion, and `StripAfterPrefix`, `StripAtMarker`, `StripWithoutMarker` and `MarkerRecognized` describe its steps.
