/**
 * `aggressiveNormalize` (src/components/PdfViewer.jsx): lower-case, drop every
 * character outside `[a-z0-9\s]`, collapse whitespace runs to one space, trim.
 *
 * The four steps are modelled one function each, in the source's order. Their
 * composition is then proved equal to an independent description of the result:
 * the whitespace-separated words of the filtered text, joined by single spaces.
 * The output alphabet, idempotence, the insensitivity to the kind and length of
 * whitespace runs and the absorption of the fragment joiner follow from that
 * description. Insensitivity to case and to punctuation is proved directly on
 * the lower-casing and filtering steps.
 */
module Normalizer {
  import opened Wrappers
  import opened Strings

  /** `toLowerCase`, restricted to ASCII letters. */
  function LowerChar(c: char): char {
    if 'A' <= c <= 'Z' then (c as int + 32) as char else c
  }

  function ToLower(s: string): string {
    seq(|s|, i requires 0 <= i < |s| => LowerChar(s[i]))
  }

  /** A character that may appear in a word of normalized text. */
  predicate IsWordChar(c: char) {
    'a' <= c <= 'z' || '0' <= c <= '9'
  }

  /** A character that `replace(/[^a-z0-9\s]/g, '')` keeps. */
  predicate IsKept(c: char) {
    IsWordChar(c) || IsSpace(c)
  }

  /** `replace(/[^a-z0-9\s]/g, '')`. */
  function RemoveDisallowed(s: string): (r: string)
    ensures forall i :: 0 <= i < |r| ==> IsKept(r[i])
    ensures |r| <= |s|
  {
    if s == [] then [] else (if IsKept(s[0]) then [s[0]] else []) + RemoveDisallowed(s[1..])
  }

  /** `replace(/\s+/g, ' ')`: each maximal whitespace run becomes one space. */
  function CollapseSpaces(s: string): string
    decreases |s|
  {
    if s == [] then []
    else if IsSpace(s[0]) then " " + CollapseSpaces(s[SpaceRun(s)..])
    else [s[0]] + CollapseSpaces(s[1..])
  }

  /** The text the normalizer keeps: lower-cased, only `[a-z0-9\s]` left. */
  function Filtered(s: string): string {
    RemoveDisallowed(ToLower(s))
  }

  /** Normalized text: `[a-z0-9]` words separated by single spaces, no space at either end. */
  predicate IsNormalForm(r: string) {
    && (forall i :: 0 <= i < |r| ==> IsWordChar(r[i]) || r[i] == ' ')
    && (r != [] ==> r[0] != ' ' && r[|r| - 1] != ' ')
    && (forall i :: 0 <= i < |r| - 1 ==> !(r[i] == ' ' && r[i + 1] == ' '))
  }

  /** `aggressiveNormalize(text)`; `None` stands for `null`/`undefined`. */
  function AggressiveNormalize(text: Option<string>): (r: string)
    ensures text == None || text == Some("") ==> r == ""
  {
    if text == None || text.value == "" then ""
    else Trim(CollapseSpaces(Filtered(text.value)))
  }

  /** Whatever the input, the result is in normal form. */
  lemma NormalizeNormalForm(text: Option<string>)
    ensures IsNormalForm(AggressiveNormalize(text))
  {
    if text.Some? && text.value != "" {
      NormalizeAsWords(text.value);
      WordsAreTokens(Filtered(text.value));
      UnwordsNormalForm(Words(Filtered(text.value)));
    }
  }

  // ----- Reference description: words and single-space joins -----

  /** The maximal non-whitespace runs of `s`, in order. */
  function Words(s: string): (ws: seq<string>)
    decreases |s|
  {
    if s == [] then []
    else if IsSpace(s[0]) then Words(s[1..])
    else [s[..WordLen(s)]] + Words(s[WordLen(s)..])
  }

  /** `ws` joined with single spaces. */
  function Unwords(ws: seq<string>): string {
    if ws == [] then ""
    else if |ws| == 1 then ws[0]
    else ws[0] + " " + Unwords(ws[1..])
  }

  predicate IsToken(w: string) {
    |w| > 0 && forall i :: 0 <= i < |w| ==> IsWordChar(w[i])
  }

  predicate AllTokens(ws: seq<string>) {
    forall j :: 0 <= j < |ws| ==> IsToken(ws[j])
  }

  /** The words of text that holds only `[a-z0-9\s]` are tokens. */
  lemma {:induction false} WordsAreTokens(s: string)
    requires forall i :: 0 <= i < |s| ==> IsKept(s[i])
    ensures AllTokens(Words(s))
    decreases |s|
  {
    if s == [] {
    } else if IsSpace(s[0]) {
      WordsAreTokens(s[1..]);
    } else {
      var n := WordLen(s);
      WordsAreTokens(s[n..]);
      forall i | 0 <= i < n ensures IsWordChar(s[..n][i]) {
        assert s[..n][i] == s[i];
        assert !IsSpace(s[..n][i]);
      }
    }
  }

  /** Leading whitespace contributes no word. */
  lemma {:induction false} WordsSkipSpaces(s: string, k: nat)
    requires k <= |s| && AllSpace(s[..k])
    ensures Words(s) == Words(s[k..])
    decreases k
  {
    if k > 0 {
      assert IsSpace(s[..k][0]);
      assert s[1..][..k - 1] == s[1..k];
      assert forall i :: 0 <= i < k - 1 ==> s[1..k][i] == s[..k][i + 1];
      WordsSkipSpaces(s[1..], k - 1);
      assert s[1..][k - 1..] == s[k..];
    }
  }

  lemma WordsOfSpaces(s: string)
    requires AllSpace(s)
    ensures Words(s) == []
  {
    assert s[..|s|] == s;
    WordsSkipSpaces(s, |s|);
  }

  /** A leading run of non-space characters passes through `CollapseSpaces` unchanged. */
  lemma {:induction false} CollapseWordPrefix(t: string, k: nat)
    requires k <= WordLen(t)
    ensures CollapseSpaces(t) == t[..k] + CollapseSpaces(t[k..])
    decreases k
  {
    if k > 0 {
      assert !IsSpace(t[..WordLen(t)][0]);
      assert WordLen(t[1..]) == WordLen(t) - 1;
      CollapseWordPrefix(t[1..], k - 1);
      assert t[1..][k - 1..] == t[k..];
      assert t[..k] == [t[0]] + t[1..][..k - 1];
    }
  }

  /** Trailing-whitespace removal only looks at the tail once a non-space is seen there. */
  lemma {:induction false} TrimEndAppend(x: string, y: string)
    requires !AllSpace(y)
    ensures TrimEnd(x + y) == x + TrimEnd(y)
    decreases |y|
  {
    var last := |y| - 1;
    if IsSpace(y[last]) {
      var y' := y[..last];
      assert !AllSpace(y') by {
        var i :| 0 <= i < |y| && !IsSpace(y[i]);
        assert i < last && y'[i] == y[i];
      }
      assert (x + y)[..|x + y| - 1] == x + y';
      TrimEndAppend(x, y');
    }
  }

  /** One unfolding of `Words` at a word. */
  lemma WordsAtWord(t: string)
    requires t != [] && !IsSpace(t[0])
    ensures 0 < WordLen(t)
    ensures Words(t) == [t[..WordLen(t)]] + Words(t[WordLen(t)..])
    ensures !IsSpace(t[WordLen(t) - 1])
  {
    var n := WordLen(t);
    assert t[..n][n - 1] == t[n - 1];
  }

  /** Without leading whitespace, collapsing then trimming the end gives the joined words. */
  lemma {:induction false} TrimEndCollapse(t: string)
    requires t == [] || !IsSpace(t[0])
    ensures TrimEnd(CollapseSpaces(t)) == Unwords(Words(t))
    decreases |t|
  {
    if t != [] {
      WordsAtWord(t);
      var n := WordLen(t);
      var w, rest := t[..n], t[n..];
      CollapseWordPrefix(t, n);
      assert w[|w| - 1] == t[n - 1];
      if rest == [] {
        assert CollapseSpaces(t) == w;
      } else {
        TrimEndCollapseAfterWord(w, rest);
      }
    }
  }

  /** A word followed by whitespace-led text: the word, then the rest's words. */
  lemma {:induction false} TrimEndCollapseAfterWord(w: string, rest: string)
    requires w != [] && !IsSpace(w[|w| - 1])
    requires rest != [] && IsSpace(rest[0])
    ensures TrimEnd(w + CollapseSpaces(rest)) == Unwords([w] + Words(rest))
    decreases |rest|
  {
    var k := SpaceRun(rest);
    var r' := rest[k..];
    WordsSkipSpaces(rest, k);
    assert CollapseSpaces(rest) == " " + CollapseSpaces(r');
    if r' == [] {
      assert CollapseSpaces(r') == [] && Words(r') == [];
      AppendNil(" ", CollapseSpaces(r'));
      AppendNil([w], Words(rest));
      TrimEndDropsSpace(w);
    } else {
      TrimEndCollapse(r');
      TrimEndJoinWord(w, r');
      AppendAssoc(w, " ", CollapseSpaces(r'));
    }
  }

  /** One space after a word is trimmed away. */
  lemma TrimEndDropsSpace(w: string)
    requires w != [] && !IsSpace(w[|w| - 1])
    ensures TrimEnd(w + " ") == w
  {
    assert (w + " ")[..|w + " "| - 1] == w;
  }

  /** Putting a word and one space before text that starts with a word extends its joined words. */
  lemma TrimEndJoinWord(w: string, t: string)
    requires t != [] && !IsSpace(t[0])
    requires TrimEnd(CollapseSpaces(t)) == Unwords(Words(t))
    ensures TrimEnd(w + " " + CollapseSpaces(t)) == Unwords([w] + Words(t))
  {
    var c := CollapseSpaces(t);
    assert c[0] == t[0];
    assert !AllSpace(c);
    TrimEndAppend(w + " ", c);
    WordsAtWord(t);
    var ws := [w] + Words(t);
    assert |ws| > 1 && ws[1..] == Words(t);
  }

  /** Collapsing whitespace and trimming yields exactly the words joined by single spaces. */
  lemma TrimCollapse(t: string)
    ensures Trim(CollapseSpaces(t)) == Unwords(Words(t))
  {
    var k := SpaceRun(t);
    var t' := t[k..];
    WordsSkipSpaces(t, k);
    TrimEndCollapse(t');
    if k == 0 {
      assert t' == t;
      if t != [] { assert CollapseSpaces(t)[0] == t[0]; }
      assert SpaceRun(CollapseSpaces(t)) == 0;
    } else {
      var c := CollapseSpaces(t');
      assert CollapseSpaces(t) == " " + c;
      if c != [] { assert c[0] == t'[0]; }
      assert SpaceRun(" " + c) == 1 by { assert (" " + c)[1..] == c; }
      assert (" " + c)[1..] == c;
    }
  }

  /** The source's pipeline equals the reference: the filtered text's words, single-spaced. */
  lemma NormalizeAsWords(text: string)
    ensures Trim(CollapseSpaces(Filtered(text))) == Unwords(Words(Filtered(text)))
  {
    TrimCollapse(Filtered(text));
  }

  /** Joining tokens with single spaces gives text in normal form. */
  lemma {:induction false} UnwordsNormalForm(ws: seq<string>)
    requires AllTokens(ws)
    ensures IsNormalForm(Unwords(ws))
    ensures Unwords(ws) == [] <==> ws == []
  {
    if |ws| > 1 {
      UnwordsNormalForm(ws[1..]);
      var u := Unwords(ws[1..]);
      var w := ws[0];
      var r := w + " " + u;
      assert IsToken(w);
      forall i | 0 <= i < |r| - 1 ensures !(r[i] == ' ' && r[i + 1] == ' ') {
        if i < |w| { assert r[i] == w[i]; }
        else if i == |w| { assert r[i + 1] == u[0]; }
        else { assert r[i] == u[i - |w| - 1] && r[i + 1] == u[i - |w|]; }
      }
      forall i | 0 <= i < |r| ensures IsWordChar(r[i]) || r[i] == ' ' {
        if i < |w| { assert r[i] == w[i]; }
        else if i > |w| { assert r[i] == u[i - |w| - 1]; }
      }
      assert r[|r| - 1] == u[|u| - 1];
    } else if |ws| == 1 {
      assert IsToken(ws[0]);
    }
  }

  /** Round trip: splitting single-spaced tokens recovers the tokens. */
  lemma {:induction false} WordsUnwords(ws: seq<string>)
    requires AllTokens(ws)
    ensures Words(Unwords(ws)) == ws
  {
    if ws != [] {
      var w := ws[0];
      TokenHasNoSpace(w);
      if |ws| == 1 {
        WordsOfWordThen(w, []);
        AppendNil(w, []);
      } else {
        var u := Unwords(ws[1..]);
        WordsOfWordThen(w, " " + u);
        WordsUnwords(ws[1..]);
        assert (" " + u)[1..] == u;
        AppendAssoc(w, " ", u);
        ConsRest(ws);
      }
    }
  }

  lemma TokenHasNoSpace(w: string)
    requires IsToken(w)
    ensures |w| > 0 && NoSpace(w)
  {
    assert forall i :: 0 <= i < |w| ==> IsWordChar(w[i]);
  }

  /** A word followed by nothing or by whitespace-led text is the first of the words. */
  lemma WordsOfWordThen(w: string, rest: string)
    requires |w| > 0 && NoSpace(w)
    requires rest == [] || IsSpace(rest[0])
    ensures Words(w + rest) == [w] + Words(rest)
  {
    var u := w + rest;
    CutLeft(w, rest, |w|);
    assert w[..|w|] == w && w[|w|..] == [];
    assert [] + rest == rest;
    WordLenIs(u, |w|);
    assert u[0] == w[0];
  }

  lemma LowerOfNormalForm(r: string)
    requires IsNormalForm(r)
    ensures ToLower(r) == r
  {
  }

  lemma {:induction false} RemoveDisallowedKeeps(s: string)
    requires forall i :: 0 <= i < |s| ==> IsKept(s[i])
    ensures RemoveDisallowed(s) == s
  {
    if s != [] {
      RemoveDisallowedKeeps(s[1..]);
    }
  }

  /** Normalization is idempotent. */
  lemma NormalizeIdempotent(text: Option<string>)
    ensures AggressiveNormalize(Some(AggressiveNormalize(text))) == AggressiveNormalize(text)
  {
    var n := AggressiveNormalize(text);
    if n != "" {
      var s := text.value;
      NormalizeAsWords(s);
      WordsAreTokens(Filtered(s));
      NormalizeOfUnwords(Words(Filtered(s)));
    }
  }

  /** Tokens joined by single spaces come back unchanged from the normalizer. */
  lemma NormalizeOfUnwords(ws: seq<string>)
    requires AllTokens(ws)
    ensures AggressiveNormalize(Some(Unwords(ws))) == Unwords(ws)
  {
    var n := Unwords(ws);
    UnwordsNormalForm(ws);
    LowerOfNormalForm(n);
    RemoveDisallowedKeeps(n);
    assert Filtered(n) == n;
    NormalizeAsWords(n);
    WordsUnwords(ws);
  }

  // ----- Insensitivity to case, punctuation and whitespace -----

  lemma ToLowerConcat(a: string, b: string)
    ensures ToLower(a + b) == ToLower(a) + ToLower(b)
  {
  }

  lemma {:induction false} RemoveDisallowedConcat(a: string, b: string)
    ensures RemoveDisallowed(a + b) == RemoveDisallowed(a) + RemoveDisallowed(b)
  {
    if a == [] {
      assert a + b == b;
    } else {
      assert (a + b)[1..] == a[1..] + b;
      RemoveDisallowedConcat(a[1..], b);
    }
  }

  lemma FilteredConcat(a: string, b: string)
    ensures Filtered(a + b) == Filtered(a) + Filtered(b)
  {
    ToLowerConcat(a, b);
    RemoveDisallowedConcat(ToLower(a), ToLower(b));
  }

  lemma FilteredSpaces(run: string)
    requires AllSpace(run)
    ensures Filtered(run) == run
  {
    RemoveDisallowedKeeps(ToLower(run));
  }

  /** The filter on one character: an allowed character is kept, any other is deleted.
      With `RemoveDisallowedConcat` this fixes the result: the allowed characters, in order. */
  lemma RemoveDisallowedChar(c: char)
    ensures IsKept(c) ==> RemoveDisallowed([c]) == [c]
    ensures !IsKept(c) ==> RemoveDisallowed([c]) == []
  {
    assert [c][1..] == [];
  }

  /** Text none of whose characters survives lower-casing and filtering filters to nothing. */
  lemma {:induction false} FilteredDropsAll(p: string)
    requires forall i :: 0 <= i < |p| ==> !IsKept(LowerChar(p[i]))
    ensures Filtered(p) == []
    decreases |p|
  {
    if p != [] {
      FilteredDropsAll(p[1..]);
      ConsRest(p);
      FilteredConcat([p[0]], p[1..]);
      RemoveDisallowedChar(LowerChar(p[0]));
      assert ToLower([p[0]]) == [LowerChar(p[0])];
    }
  }

  /** Deleting punctuation (any run of characters outside `[A-Za-z0-9\s]`) does not change the normalized text. */
  lemma NormalizeIgnoresPunctuation(a: string, p: string, b: string)
    requires forall i :: 0 <= i < |p| ==> !IsKept(LowerChar(p[i]))
    ensures AggressiveNormalize(Some(a + p + b)) == AggressiveNormalize(Some(a + b))
  {
    FilteredDropsAll(p);
    FilteredConcat(a + p, b);
    FilteredConcat(a, p);
    FilteredConcat(a, b);
    AppendNil(Filtered(a), Filtered(p));
  }

  /** Splitting text at whitespace splits its words. */
  lemma {:induction false} WordsConcat(x: string, y: string)
    requires x == [] || y == [] || IsSpace(x[|x| - 1]) || IsSpace(y[0])
    ensures Words(x + y) == Words(x) + Words(y)
    decreases |x|
  {
    if x == [] {
      assert x + y == y;
    } else if y == [] {
      assert x + y == x;
    } else if IsSpace(x[0]) {
      ConsSplit(x, y, y);
      WordsConcat(x[1..], y);
    } else {
      var n := WordLen(x);
      var xy := x + y;
      CutLeft(x, y, n);
      if n == |x| {
        assert x[..n] == x;
      }
      WordLenIs(xy, n);
      WordsConcat(x[n..], y);
      ConsAssoc(x[..n], Words(x[n..]), Words(y));
    }
  }

  /** `[w] + (a + b) == ([w] + a) + b`, stated apart from the lemmas that need it. */
  lemma ConsAssoc(w: string, a: seq<string>, b: seq<string>)
    ensures [w] + (a + b) == [w] + a + b
  {
  }

  /** Inputs equal up to ASCII letter case normalize to the same text. */
  lemma NormalizeIgnoresCase(a: string, b: string)
    requires |a| == |b|
    requires forall i :: 0 <= i < |a| ==> LowerChar(a[i]) == LowerChar(b[i])
    ensures AggressiveNormalize(Some(a)) == AggressiveNormalize(Some(b))
  {
    assert ToLower(a) == ToLower(b);
  }

  /** A whitespace run between two texts separates their words and adds none. */
  lemma WordsAroundSpaces(x: string, run: string, y: string)
    requires |run| > 0 && AllSpace(run)
    ensures Words(x + run + y) == Words(x) + Words(y)
  {
    CutLeft(run, y, 0);
    assert IsSpace(run[0]) && IsSpace(run[|run| - 1]);
    WordsConcat(x, run + y);
    WordsConcat(run, y);
    WordsOfSpaces(run);
    AppendAssoc(x, run, y);
    EmptyMiddle(Words(x), Words(run), Words(y));
  }

  /** A whitespace run of any kind and length normalizes like a single space. */
  lemma NormalizeSpaceRun(a: string, run: string, b: string)
    requires |run| > 0 && AllSpace(run)
    ensures AggressiveNormalize(Some(a + run + b)) == AggressiveNormalize(Some(a + " " + b))
  {
    FilteredWordsAroundSpaces(a, run, b);
    FilteredWordsAroundSpaces(a, " ", b);
    NormalizeIsUnwords(a + run + b);
    NormalizeIsUnwords(a + " " + b);
  }

  /** Normalizing non-empty text joins the words of its filtered form. */
  lemma NormalizeIsUnwords(t: string)
    requires t != ""
    ensures AggressiveNormalize(Some(t)) == Unwords(Words(Filtered(t)))
  {
    NormalizeAsWords(t);
  }

  /** Filtering keeps a whitespace run, so the words on either side stay apart. */
  lemma FilteredWordsAroundSpaces(a: string, run: string, b: string)
    requires |run| > 0 && AllSpace(run)
    ensures a + run + b != ""
    ensures Words(Filtered(a + run + b)) == Words(Filtered(a)) + Words(Filtered(b))
  {
    FilteredConcat(a + run, b);
    FilteredConcat(a, run);
    FilteredSpaces(run);
    WordsAroundSpaces(Filtered(a), run, Filtered(b));
    assert |a + run + b| > 0;
  }

  // ----- Page text: fragments joined with a space, then normalized -----

  /** `Array.prototype.join(sep)`. */
  function Join(parts: seq<string>, sep: string): string {
    if parts == [] then ""
    else if |parts| == 1 then parts[0]
    else parts[0] + sep + Join(parts[1..], sep)
  }

  /** The words of each fragment, fragment after fragment. */
  function FragmentWords(parts: seq<string>): seq<string> {
    if parts == [] then [] else Words(Filtered(parts[0])) + FragmentWords(parts[1..])
  }

  lemma {:induction false} WordsOfJoin(parts: seq<string>, sep: string)
    requires |sep| > 0 && AllSpace(sep)
    ensures Words(Filtered(Join(parts, sep))) == FragmentWords(parts)
  {
    if |parts| == 1 {
    } else if |parts| > 1 {
      var p, rest := parts[0], Join(parts[1..], sep);
      FilteredConcat(p + sep, rest);
      FilteredConcat(p, sep);
      FilteredSpaces(sep);
      var fp, fr := Filtered(p), Filtered(rest);
      WordsAroundSpaces(fp, sep, fr);
      WordsOfJoin(parts[1..], sep);
    }
  }

  /**
   * The page text the locator compares against: the words of the fragments in
   * emission order, single-spaced. The separator used to join the fragments is
   * absorbed: any non-empty whitespace separator gives the same page text, and
   * a fragment boundary is always a word boundary.
   */
  lemma PageTextAbsorbsJoiner(parts: seq<string>, sep: string)
    requires |sep| > 0 && AllSpace(sep)
    ensures AggressiveNormalize(Some(Join(parts, sep))) == Unwords(FragmentWords(parts))
    ensures AggressiveNormalize(Some(Join(parts, sep))) == AggressiveNormalize(Some(Join(parts, " ")))
  {
    WordsOfJoin(parts, sep);
    WordsOfJoin(parts, " ");
    NormalizeAsWords(Join(parts, sep));
    NormalizeAsWords(Join(parts, " "));
  }
}
