/** The optional value used for JavaScript's `null` / missing arguments. */
module Wrappers {
  datatype Option<+T> = None | Some(value: T)
}

/**
 * Character classes and whitespace handling shared by the normalizer and the
 * citation cleaner: the `\s` class of JavaScript regular expressions, maximal
 * runs at the front of a string, and `String.prototype.trim`.
 */
module Strings {

  /** A character matched by `\s`: ECMAScript WhiteSpace or LineTerminator.
      `String.prototype.trim` strips exactly the same set. */
  predicate IsSpace(c: char) {
    c == ' ' || c == '\t' || c == '\n' || c == '\U{B}' || c == '\U{C}' || c == '\r'
    || c == '\U{A0}' || c == '\U{1680}' || ('\U{2000}' <= c <= '\U{200A}')
    || c == '\U{2028}' || c == '\U{2029}' || c == '\U{202F}' || c == '\U{205F}'
    || c == '\U{3000}' || c == '\U{FEFF}'
  }

  /** `\d` without the `u` flag: the ASCII digits. */
  predicate IsDigit(c: char) {
    '0' <= c <= '9'
  }

  predicate AllSpace(s: string) {
    forall i :: 0 <= i < |s| ==> IsSpace(s[i])
  }

  predicate NoSpace(s: string) {
    forall i :: 0 <= i < |s| ==> !IsSpace(s[i])
  }

  predicate AllDigits(s: string) {
    forall i :: 0 <= i < |s| ==> IsDigit(s[i])
  }

  /** Length of the maximal run of whitespace that starts `s` (what `\s*` consumes). */
  function SpaceRun(s: string): (n: nat)
    ensures n <= |s|
    ensures AllSpace(s[..n])
    ensures n == |s| || !IsSpace(s[n])
  {
    if s != [] && IsSpace(s[0]) then
      var n := 1 + SpaceRun(s[1..]);
      assert s[..n] == [s[0]] + s[1..][..n - 1];
      n
    else 0
  }

  /** Length of the maximal run of non-whitespace characters that starts `s`. */
  function WordLen(s: string): (n: nat)
    ensures n <= |s|
    ensures NoSpace(s[..n])
    ensures n == |s| || IsSpace(s[n])
  {
    if s != [] && !IsSpace(s[0]) then
      var n := 1 + WordLen(s[1..]);
      assert s[..n] == [s[0]] + s[1..][..n - 1];
      n
    else 0
  }

  /** Length of the maximal run of ASCII digits that starts `s` (what `\d+` tries to consume). */
  function DigitRun(s: string): (n: nat)
    ensures n <= |s|
    ensures AllDigits(s[..n])
    ensures n == |s| || !IsDigit(s[n])
  {
    if s != [] && IsDigit(s[0]) then
      var n := 1 + DigitRun(s[1..]);
      assert s[..n] == [s[0]] + s[1..][..n - 1];
      n
    else 0
  }

  /** `s` without its trailing whitespace: the longest prefix that does not end in a space. */
  function TrimEnd(s: string): (r: string)
    ensures |r| <= |s| && r == s[..|r|]
    ensures AllSpace(s[|r|..])
    ensures r == [] || !IsSpace(r[|r| - 1])
    decreases |s|
  {
    if s != [] && IsSpace(s[|s| - 1]) then
      var r := TrimEnd(s[..|s| - 1]);
      assert s[|r|..] == s[..|s| - 1][|r|..] + [s[|s| - 1]];
      r
    else s
  }

  /** `String.prototype.trim`: the infix of `s` left once the whitespace at both ends is gone. */
  function Trim(s: string): string {
    TrimEnd(s[SpaceRun(s)..])
  }

  /** What `trim` leaves is an infix of `s` with only whitespace around it, and it neither starts nor ends with whitespace. */
  lemma TrimIsInfix(s: string)
    ensures var r := Trim(s);
      exists i :: 0 <= i <= |s| - |r| && r == s[i..i + |r|] && AllSpace(s[..i]) && AllSpace(s[i + |r|..])
    ensures Trim(s) == [] || (!IsSpace(Trim(s)[0]) && !IsSpace(Trim(s)[|Trim(s)| - 1]))
  {
    var i := SpaceRun(s);
    var r := TrimEnd(s[i..]);
    assert r == s[i..i + |r|];
    assert s[i + |r|..] == s[i..][|r|..];
    assert r != [] ==> r[0] == s[i];
  }

  /** `WordLen` is the one length that ends a maximal non-space prefix. */
  lemma {:induction false} WordLenIs(s: string, k: nat)
    requires k <= |s| && NoSpace(s[..k]) && (k == |s| || IsSpace(s[k]))
    ensures WordLen(s) == k
    decreases k
  {
    if k > 0 {
      assert !IsSpace(s[..k][0]);
      assert s[1..][..k - 1] == s[1..k];
      assert forall i :: 0 <= i < k - 1 ==> s[1..k][i] == s[..k][i + 1];
      WordLenIs(s[1..], k - 1);
    }
  }

  /** Concatenation is associative (stated apart so that callers need no sequence extensionality). */
  lemma AppendAssoc(x: string, m: string, y: string)
    ensures x + m + y == x + (m + y)
  {
  }

  /** Regrouping the four parts that follow a prefix. */
  lemma AppendAssoc4(x: string, a: string, b: string, c: string, d: string)
    ensures x + a + b + c + d == x + (a + b + c + d)
  {
  }

  /** Cutting a concatenation inside its left part. */
  lemma CutLeft(x: string, y: string, n: nat)
    requires n <= |x|
    ensures (x + y)[..n] == x[..n] && (x + y)[n..] == x[n..] + y
    ensures n < |x| ==> (x + y)[n] == x[n]
    ensures n == |x| && y != [] ==> (x + y)[n] == y[0]
    ensures n < |x| ==> x[n..][|x[n..]| - 1] == x[|x| - 1]
  {
  }

  /** A prefix is the shorter prefix followed by one more element. */
  lemma TakeSnoc<T>(s: seq<T>, n: nat)
    requires 0 < n <= |s|
    ensures s[..n] == s[..n - 1] + [s[n - 1]]
  {
  }

  /** A non-empty sequence is its head followed by its tail. */
  lemma ConsRest<T>(s: seq<T>)
    requires s != []
    ensures [s[0]] + s[1..] == s
  {
  }

  /** An empty right part drops out of a concatenation. */
  lemma AppendNil<T>(a: seq<T>, e: seq<T>)
    requires e == []
    ensures a + e == a
  {
  }

  /** An empty left part drops out of a concatenation. */
  lemma EmptyLeft<T>(e: seq<T>, a: seq<T>)
    requires e == []
    ensures e + a == a
  {
  }

  /** An empty middle part drops out of a concatenation. */
  lemma EmptyMiddle<T>(a: seq<T>, e: seq<T>, b: seq<T>)
    requires e == []
    ensures a + (e + b) == a + b
  {
  }

  /** Splitting the first character off a non-empty string that heads a concatenation. */
  lemma ConsSplit(x: string, t: string, u: string)
    requires x != []
    ensures (x + t)[0] == x[0] && (x + t)[1..] == x[1..] + t
    ensures [x[0]] + (x[1..] + u) == x + u
  {
    assert x == [x[0]] + x[1..];
  }

  /** `SpaceRun` is the one length that ends a maximal whitespace prefix. */
  lemma {:induction false} SpaceRunIs(s: string, k: nat)
    requires k <= |s| && AllSpace(s[..k]) && (k == |s| || !IsSpace(s[k]))
    ensures SpaceRun(s) == k
    decreases k
  {
    if k > 0 {
      assert IsSpace(s[..k][0]);
      assert s[1..][..k - 1] == s[1..k];
      assert forall i :: 0 <= i < k - 1 ==> s[1..k][i] == s[..k][i + 1];
      SpaceRunIs(s[1..], k - 1);
    }
  }

  /** `DigitRun` is the one length that ends a maximal digit prefix. */
  lemma {:induction false} DigitRunIs(s: string, k: nat)
    requires k <= |s| && AllDigits(s[..k]) && (k == |s| || !IsDigit(s[k]))
    ensures DigitRun(s) == k
    decreases k
  {
    if k > 0 {
      assert IsDigit(s[..k][0]);
      assert s[1..][..k - 1] == s[1..k];
      assert forall i :: 0 <= i < k - 1 ==> s[1..k][i] == s[..k][i + 1];
      DigitRunIs(s[1..], k - 1);
    }
  }

  /** A whitespace run stops at the first non-space character. */
  lemma {:induction false} SpaceRunStopsAt(s: string, i: nat)
    requires i < |s| && !IsSpace(s[i])
    ensures SpaceRun(s) <= i
    decreases i
  {
    if i > 0 && IsSpace(s[0]) {
      SpaceRunStopsAt(s[1..], i - 1);
    }
  }

  /** Text without whitespace at either end is left as it is by `trim`. */
  lemma TrimKeeps(s: string)
    requires s == [] || (!IsSpace(s[0]) && !IsSpace(s[|s| - 1]))
    ensures Trim(s) == s
  {
    if s != [] {
      assert SpaceRun(s) == 0;
      assert s[0..] == s;
    }
  }

  /** A string is blank for `!text.trim()` exactly when it is made of whitespace only. */
  lemma BlankIffAllSpace(s: string)
    ensures Trim(s) == [] <==> AllSpace(s)
  {
    if AllSpace(s) {
      assert s[..|s|] == s;
      SpaceRunIs(s, |s|);
    }
    if Trim(s) == [] {
      TrimEmptyAllSpace(s);
    }
  }

  /** When `trim` leaves nothing, every character was whitespace. */
  lemma TrimEmptyAllSpace(s: string)
    requires Trim(s) == []
    ensures AllSpace(s)
  {
    var k := SpaceRun(s);
    if k < |s| {
      // the first non-space character would survive `TrimEnd`
      assert false;
    }
    assert s[..k] == s;
  }
}
