/**
 * The handful of Python string operations the cleaning pipeline relies on, over `seq<char>`:
 * substring search (`in`, `find`), `split(sep)`, whitespace `split()`, `isupper`, `isdigit`,
 * `title()` and the ordering Python uses to compare strings.
 */
module Strings {
  import opened Outcomes

  /** `pat` occurs in `s` starting at index `j`. */
  predicate OccursAt(s: string, pat: string, j: int) {
    0 <= j && j + |pat| <= |s| && s[j..j + |pat|] == pat
  }

  /** Index of the leftmost occurrence of `pat` in `s` (Python's `str.find`, with None for -1). */
  function IndexOf(s: string, pat: string): (r: Option<nat>)
    ensures r.Some? ==> OccursAt(s, pat, r.value)
    ensures r.Some? ==> forall j :: 0 <= j < r.value ==> !OccursAt(s, pat, j)
    ensures r.None? ==> forall j :: 0 <= j <= |s| - |pat| ==> !OccursAt(s, pat, j)
    decreases |s|
  {
    if |s| < |pat| then None
    else if s[..|pat|] == pat then Some(0)
    else
      var rest := IndexOf(s[1..], pat);
      ShiftOccurrence(s, pat);
      match rest
      case None => None
      case Some(i) => Some(i + 1)
  }

  /** Occurrences in the tail `s[1..]` are the occurrences in `s` one position later. */
  lemma ShiftOccurrence(s: string, pat: string)
    requires |s| > 0
    ensures forall j :: 1 <= j ==> (OccursAt(s, pat, j) <==> OccursAt(s[1..], pat, j - 1))
  {
    forall j | 1 <= j
      ensures OccursAt(s, pat, j) <==> OccursAt(s[1..], pat, j - 1)
    {
      if j + |pat| <= |s| {
        var x, y := s[1..][j - 1..j - 1 + |pat|], s[j..j + |pat|];
        assert forall k :: 0 <= k < |x| ==> x[k] == y[k];
      }
    }
  }

  /** Python's `pat in s`. */
  predicate Contains(s: string, pat: string) {
    IndexOf(s, pat).Some?
  }

  lemma ContainsOccurs(s: string, pat: string, j: int)
    requires OccursAt(s, pat, j)
    ensures Contains(s, pat)
  {
  }

  /** A text without the character `c` does not contain the one-character string `[c]`. */
  lemma LacksChar(s: string, c: char)
    requires forall i :: 0 <= i < |s| ==> s[i] != c
    ensures !Contains(s, [c])
  {
    forall j | 0 <= j < |s| ensures !OccursAt(s, [c], j) {
      assert s[j..j + 1][0] == s[j];
    }
  }

  /** An occurrence inside a slice of `s` is an occurrence in `s`. */
  lemma OccursInSlice(s: string, lo: nat, hi: nat, pat: string, j: int)
    requires lo <= hi <= |s|
    requires OccursAt(s[lo..hi], pat, j)
    ensures OccursAt(s, pat, lo + j)
  {
    var x, y := s[lo..hi][j..j + |pat|], s[lo + j..lo + j + |pat|];
    assert forall k :: 0 <= k < |x| ==> x[k] == y[k];
  }

  /** Python's `s.split(sep)` for a non-empty separator: no collapsing, always at least one piece. */
  function Split(s: string, sep: string): (parts: seq<string>)
    requires |sep| > 0
    ensures |parts| >= 1
    ensures forall i :: 0 <= i < |parts| ==> !Contains(parts[i], sep)
    decreases |s|
  {
    match IndexOf(s, sep)
    case None => [s]
    case Some(i) =>
      var head := s[..i];
      assert !Contains(head, sep) by {
        if Contains(head, sep) {
          var j := IndexOf(head, sep).value;
          OccursInSlice(s, 0, i, sep, j);
        }
      }
      [head] + Split(s[i + |sep|..], sep)
  }

  /** Python's `sep.join(parts)`. */
  function Join(parts: seq<string>, sep: string): string
    requires |parts| >= 1
  {
    if |parts| == 1 then parts[0] else parts[0] + sep + Join(parts[1..], sep)
  }

  /** Splitting and joining back with the same separator gives the original text. */
  lemma {:induction false} JoinSplit(s: string, sep: string)
    requires |sep| > 0
    ensures Join(Split(s, sep), sep) == s
    decreases |s|
  {
    match IndexOf(s, sep)
    case None =>
    case Some(i) =>
      var rest := s[i + |sep|..];
      var tail := Split(rest, sep);
      JoinSplit(rest, sep);
      assert Split(s, sep) == [s[..i]] + tail;
      assert ([s[..i]] + tail)[1..] == tail;
      assert s[i..i + |sep|] == sep;
      assert s == s[..i] + s[i..i + |sep|] + rest;
  }

  /** The text before the first separator, or all of `s` when there is none (`s.split(sep)[0]`). */
  function FirstField(s: string, sep: string): (f: string)
    requires |sep| > 0
    ensures |f| <= |s| && f == s[..|f|]
    ensures !Contains(f, sep)
    ensures f == s || OccursAt(s, sep, |f|)
  {
    Split(s, sep)[0]
  }

  /**
   * The first field of `s` less its first `n` characters is the text of `s` from `n` to the end
   * of that field, and still has no separator.
   */
  lemma FieldTail(s: string, sep: string, n: nat)
    requires |sep| > 0 && n <= |FirstField(s, sep)|
    ensures FirstField(s, sep)[n..] == s[n..|FirstField(s, sep)|]
    ensures !Contains(FirstField(s, sep)[n..], sep)
  {
    var f := FirstField(s, sep);
    var v := f[n..];
    assert v == f[n..|f|];
    if Contains(v, sep) {
      OccursInSlice(f, n, |f|, sep, IndexOf(v, sep).value);
    }
    assert forall i :: 0 <= i < |v| ==> s[n..|f|][i] == f[n + i] == v[i];
  }

  /** `FirstField` of a text that has its first separator at `k`. */
  lemma FirstFieldAt(s: string, sep: string, k: nat)
    requires |sep| > 0
    requires OccursAt(s, sep, k)
    requires forall j :: 0 <= j < k ==> !OccursAt(s, sep, j)
    ensures FirstField(s, sep) == s[..k]
  {
    var r := IndexOf(s, sep);
    assert r.Some?;
    assert r.value == k;
  }

  /** The last piece of the split: the text after the last separator, or all of `s` when there is none. */
  function LastField(s: string, sep: string): (f: string)
    requires |sep| > 0
    ensures !Contains(f, sep)
    ensures |f| <= |s| && f == s[|s| - |f|..]
    ensures f == s || OccursAt(s, sep, |s| - |f| - |sep|)
  {
    LastPiece(s, sep);
    var parts := Split(s, sep);
    parts[|parts| - 1]
  }

  /** A text without the separator is its own first and last field. */
  lemma FieldsWithoutSeparator(s: string, sep: string)
    requires |sep| > 0 && !Contains(s, sep)
    ensures FirstField(s, sep) == s && LastField(s, sep) == s
  {
    assert Split(s, sep) == [s];
  }

  /** `f` ends `s`, and is all of `s` or follows an occurrence of `sep`. */
  predicate EndsAfterSeparator(s: string, sep: string, f: string) {
    |f| <= |s| && f == s[|s| - |f|..] && (f == s || OccursAt(s, sep, |s| - |f| - |sep|))
  }

  /** The last piece of `Split` is a suffix of the text, preceded by a separator unless it is the whole text. */
  lemma {:induction false} LastPiece(s: string, sep: string)
    requires |sep| > 0
    ensures EndsAfterSeparator(s, sep, Split(s, sep)[|Split(s, sep)| - 1])
    decreases |s|
  {
    match IndexOf(s, sep)
    case None =>
    case Some(i) =>
      var rest := s[i + |sep|..];
      var tail := Split(rest, sep);
      assert Split(s, sep) == [s[..i]] + tail;
      LastPiece(rest, sep);
      EndsAfterRest(s, sep, i, tail[|tail| - 1]);
  }

  /** A piece that ends what follows the separator at `i` ends `s` too. */
  lemma EndsAfterRest(s: string, sep: string, i: nat, f: string)
    requires OccursAt(s, sep, i)
    requires EndsAfterSeparator(s[i + |sep|..], sep, f)
    ensures EndsAfterSeparator(s, sep, f)
  {
    var rest := s[i + |sep|..];
    SuffixOfSuffix(s, i + |sep|, f);
    if f != rest {
      assert s[i + |sep|..|s|] == rest;
      OccursInSlice(s, i + |sep|, |s|, sep, |rest| - |f| - |sep|);
    }
  }

  /** A suffix of a suffix of `s` is a suffix of `s`. */
  lemma SuffixOfSuffix(s: string, lo: nat, f: string)
    requires lo <= |s| && |f| <= |s| - lo && f == s[lo..][|s| - lo - |f|..]
    ensures f == s[|s| - |f|..]
  {
    assert forall k :: 0 <= k < |f| ==> f[k] == s[|s| - |f| + k];
  }

  // ---------------------------------------------------------------------------
  // Character classes (Python's str methods, restricted to Latin-1 and ASCII as noted)

  /** Whitespace for Python's `str.split()`, for the characters of the Latin-1 range. */
  predicate IsSpace(c: char) {
    c == ' ' || ('\t' <= c <= '\r') || ('\U{1C}' <= c <= '\U{1F}') || c == '\U{85}' || c == '\U{A0}'
  }

  /** `c.isupper()` for ASCII letters. */
  predicate IsUpper(c: char) {
    'A' <= c <= 'Z'
  }

  predicate IsLower(c: char) {
    'a' <= c <= 'z'
  }

  /** A cased character, for `str.title()` over ASCII. */
  predicate IsLetter(c: char) {
    IsUpper(c) || IsLower(c)
  }

  function ToUpper(c: char): char {
    if IsLower(c) then (c as int - 32) as char else c
  }

  function ToLower(c: char): char {
    if IsUpper(c) then (c as int + 32) as char else c
  }

  predicate IsDigit(c: char) {
    '0' <= c <= '9'
  }

  /** Python's `s.isdigit()` over ASCII digits: non-empty and all digits. */
  predicate IsDigits(s: string) {
    |s| > 0 && forall i :: 0 <= i < |s| ==> IsDigit(s[i])
  }

  /** The number a string of decimal digits denotes, read most significant digit first. */
  function DecimalValue(s: string): nat
    requires forall i :: 0 <= i < |s| ==> IsDigit(s[i])
  {
    if s == [] then 0
    else
      assert IsDigit(s[|s| - 1]);
      DecimalValue(s[..|s| - 1]) * 10 + (s[|s| - 1] as int - '0' as int)
  }

  /** The decimal numeral of `n`, without leading zeros. */
  function DecimalText(n: nat): (t: string)
    ensures IsDigits(t)
    decreases n
  {
    var digit := (('0' as int) + n % 10) as char;
    if n < 10 then [digit] else DecimalText(n / 10) + [digit]
  }

  /** Reading back the numeral of a number gives the number. */
  lemma {:induction false} DecimalRoundTrip(n: nat)
    ensures DecimalValue(DecimalText(n)) == n
    decreases n
  {
    var t := DecimalText(n);
    if n >= 10 {
      assert t[..|t| - 1] == DecimalText(n / 10);
      DecimalRoundTrip(n / 10);
    }
  }

  // ---------------------------------------------------------------------------
  // Whitespace splitting: Python's `s.split()` without arguments

  /** Length of the run of non-whitespace characters that starts `s`. */
  function WordLength(s: string): (n: nat)
    ensures n <= |s|
    ensures forall i :: 0 <= i < n ==> !IsSpace(s[i])
    ensures n < |s| ==> IsSpace(s[n])
  {
    if s == [] || IsSpace(s[0]) then 0 else 1 + WordLength(s[1..])
  }

  /** The words of `s`: maximal runs of non-whitespace, in order, none empty. */
  function Words(s: string): (ws: seq<string>)
    ensures forall i :: 0 <= i < |ws| ==> |ws[i]| > 0
    ensures forall i, j :: 0 <= i < |ws| && 0 <= j < |ws[i]| ==> !IsSpace(ws[i][j])
    decreases |s|
  {
    if s == [] then []
    else if IsSpace(s[0]) then Words(s[1..])
    else
      var n := WordLength(s);
      [s[..n]] + Words(s[n..])
  }

  /** A text without whitespace is a single word, or no word when it is empty. */
  lemma WordsOfRun(w: string)
    requires forall i :: 0 <= i < |w| ==> !IsSpace(w[i])
    ensures Words(w) == if w == [] then [] else [w]
  {
    if w != [] {
      var n := WordLength(w);
      assert n == |w|;
      assert w[..n] == w && w[n..] == [];
    }
  }

  /** Whitespace alone has no words. */
  lemma {:induction false} WordsOfBlank(s: string)
    requires forall i :: 0 <= i < |s| ==> IsSpace(s[i])
    ensures Words(s) == []
    decreases |s|
  {
    if s != [] {
      WordsOfBlank(s[1..]);
    }
  }

  /** A word cannot run past a whitespace character. */
  lemma {:induction false} WordLengthBefore(a: string, c: char, b: string)
    requires IsSpace(c)
    ensures WordLength(a + [c] + b) == WordLength(a)
    decreases |a|
  {
    if a != [] && !IsSpace(a[0]) {
      assert (a + [c] + b)[1..] == a[1..] + [c] + b;
      WordLengthBefore(a[1..], c, b);
    }
  }

  /** Whitespace separates: the words around a whitespace character are the words of either side. */
  lemma {:induction false} WordsAroundSpace(a: string, c: char, b: string)
    requires IsSpace(c)
    ensures Words(a + [c] + b) == Words(a) + Words(b)
    decreases |a|
  {
    var s := a + [c] + b;
    if a == [] {
      assert s[1..] == b;
    } else if IsSpace(a[0]) {
      assert s[1..] == a[1..] + [c] + b;
      WordsAroundSpace(a[1..], c, b);
    } else {
      var n := WordLength(a);
      WordLengthBefore(a, c, b);
      assert s[..n] == a[..n];
      assert s[n..] == a[n..] + [c] + b;
      WordsAroundSpace(a[n..], c, b);
    }
  }

  // ---------------------------------------------------------------------------
  // `str.title()`

  /** Title-casing after a character that was (or was not) a letter. */
  function TitleFrom(s: string, afterLetter: bool): (t: string)
    ensures |t| == |s|
  {
    if s == [] then []
    else
      var c := s[0];
      var d := if !IsLetter(c) then c else if afterLetter then ToLower(c) else ToUpper(c);
      [d] + TitleFrom(s[1..], IsLetter(c))
  }

  /** Python's `s.title()` over ASCII: a letter is upper-cased when it does not follow a letter, lower-cased otherwise. */
  function Title(s: string): (t: string)
    ensures |t| == |s|
  {
    TitleFrom(s, false)
  }

  lemma {:induction false} TitleFromIdempotent(s: string, afterLetter: bool)
    ensures TitleFrom(TitleFrom(s, afterLetter), afterLetter) == TitleFrom(s, afterLetter)
  {
    if s != [] {
      var t := TitleFrom(s, afterLetter);
      assert IsLetter(t[0]) == IsLetter(s[0]);
      assert t[1..] == TitleFrom(s[1..], IsLetter(s[0]));
      TitleFromIdempotent(s[1..], IsLetter(s[0]));
    }
  }

  /** Title-casing a title-cased text changes nothing. */
  lemma TitleIdempotent(s: string)
    ensures Title(Title(s)) == Title(s)
  {
    TitleFromIdempotent(s, false);
  }

  // ---------------------------------------------------------------------------
  // String order: Python compares strings code point by code point, a proper prefix first

  predicate StrLe(a: string, b: string) {
    if a == [] then true
    else if b == [] then false
    else if a[0] != b[0] then a[0] < b[0]
    else StrLe(a[1..], b[1..])
  }

  lemma {:induction false} StrLeTotal(a: string, b: string)
    ensures StrLe(a, b) || StrLe(b, a)
  {
    if a != [] && b != [] && a[0] == b[0] {
      StrLeTotal(a[1..], b[1..]);
    }
  }

  lemma {:induction false} StrLeAntisymmetric(a: string, b: string)
    requires StrLe(a, b) && StrLe(b, a)
    ensures a == b
  {
    if a != [] && b != [] {
      StrLeAntisymmetric(a[1..], b[1..]);
      assert a == [a[0]] + a[1..];
      assert b == [b[0]] + b[1..];
    }
  }

  lemma {:induction false} StrLeTransitive(a: string, b: string, c: string)
    requires StrLe(a, b) && StrLe(b, c)
    ensures StrLe(a, c)
  {
    if a != [] && b != [] && c != [] && a[0] == b[0] && b[0] == c[0] {
      StrLeTransitive(a[1..], b[1..], c[1..]);
    }
  }
}
