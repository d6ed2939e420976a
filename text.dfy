/**
 * The string primitives the parser and the loader rely on: Python's `str.isspace`,
 * the regex class `\w`, `str.upper`, `str.strip`, `str.split(',')`, `in` on strings
 * and `<` on strings, all restricted to ASCII.
 */
module Text {

  /** `str.isspace()` (and the regex class `\s`) on ASCII characters. */
  predicate IsSpace(c: char) {
    c == ' ' || c == '\t' || c == '\n' || c == '\r' || c == '\U{B}' || c == '\U{C}'
    || ('\U{1C}' <= c <= '\U{1F}')
  }

  /** The regex class `\w` on ASCII characters. */
  predicate IsWordChar(c: char) {
    ('a' <= c <= 'z') || ('A' <= c <= 'Z') || ('0' <= c <= '9') || c == '_'
  }

  predicate IsDigit(c: char) {
    '0' <= c <= '9'
  }

  predicate AllSpace(s: string) {
    forall i :: 0 <= i < |s| ==> IsSpace(s[i])
  }

  /** What `^\w+$` accepts: a non-empty run of word characters. */
  predicate IsWord(s: string) {
    |s| > 0 && forall i :: 0 <= i < |s| ==> IsWordChar(s[i])
  }

  /** Neither end of `s` is white space: the shape of anything `str.strip()` returns. */
  predicate Trimmed(s: string) {
    s == [] || (!IsSpace(s[0]) && !IsSpace(s[|s| - 1]))
  }

  function UpperChar(c: char): char {
    if 'a' <= c <= 'z' then (c as int - 32) as char else c
  }

  /** `str.upper()` on ASCII: a-z become A-Z, every other character is kept. */
  function Upper(s: string): (r: string)
    ensures |r| == |s|
    ensures forall i :: 0 <= i < |s| ==> r[i] == UpperChar(s[i])
  {
    seq(|s|, i requires 0 <= i < |s| => UpperChar(s[i]))
  }

  /** Upper-casing twice changes nothing more. */
  lemma UpperIdempotent(s: string)
    ensures Upper(Upper(s)) == Upper(s)
  {
  }

  predicate StartsWith(s: string, prefix: string) {
    |prefix| <= |s| && s[..|prefix|] == prefix
  }

  predicate EndsWith(s: string, suffix: string) {
    |suffix| <= |s| && s[|s| - |suffix|..] == suffix
  }

  /** `pat in s` for strings: `pat` occurs somewhere in `s`. */
  predicate Contains(s: string, pat: string)
    decreases |s|
  {
    StartsWith(s, pat) || (s != [] && Contains(s[1..], pat))
  }

  /** Python slicing `s[n:]`, which is empty when `n` is past the end. */
  function From(s: string, n: nat): (r: string)
    ensures |r| == if n <= |s| then |s| - n else 0
  {
    if n <= |s| then s[n..] else []
  }

  /** The end of the run of white space that starts at `i`. */
  function SpaceRunEnd(s: string, i: nat): (j: nat)
    requires i <= |s|
    ensures i <= j <= |s|
    ensures forall k :: i <= k < j ==> IsSpace(s[k])
    ensures j < |s| ==> !IsSpace(s[j])
    decreases |s| - i
  {
    if i < |s| && IsSpace(s[i]) then SpaceRunEnd(s, i + 1) else i
  }

  /** The start of the run of white space that ends at `j`. */
  function SpaceRunStart(s: string, j: nat): (i: nat)
    requires j <= |s|
    ensures i <= j
    ensures forall k :: i <= k < j ==> IsSpace(s[k])
    ensures i > 0 ==> !IsSpace(s[i - 1])
  {
    if j > 0 && IsSpace(s[j - 1]) then SpaceRunStart(s, j - 1) else j
  }

  /** A run of white space from `i` up to a non-space character (or the end) is the maximal one. */
  lemma SpaceRunEndIs(s: string, i: nat, j: nat)
    requires i <= j <= |s|
    requires forall k :: i <= k < j ==> IsSpace(s[k])
    requires j < |s| ==> !IsSpace(s[j])
    ensures SpaceRunEnd(s, i) == j
  {
  }

  lemma SpaceRunStartIs(s: string, i: nat, j: nat)
    requires i <= j <= |s|
    requires forall k :: i <= k < j ==> IsSpace(s[k])
    requires i > 0 ==> !IsSpace(s[i - 1])
    ensures SpaceRunStart(s, j) == i
  {
  }

  /** Python's `s[start:-dropLast]` for `dropLast > 0`: empty once the bounds cross. */
  function SliceBetween(s: string, start: nat, dropLast: nat): (r: string)
    ensures start + dropLast <= |s| ==> r == s[start..|s| - dropLast]
    ensures start + dropLast > |s| ==> r == []
  {
    if start + dropLast <= |s| then s[start..|s| - dropLast] else []
  }

  /** Removes leading white space. */
  function TrimLeft(s: string): (r: string)
    ensures r == [] || !IsSpace(r[0])
  {
    s[SpaceRunEnd(s, 0)..]
  }

  /** Removes trailing white space. */
  function TrimRight(s: string): (r: string)
    ensures r == [] || !IsSpace(r[|r| - 1])
  {
    s[..SpaceRunStart(s, |s|)]
  }

  /** `str.strip()`. */
  function Strip(s: string): (r: string)
    ensures Trimmed(r)
  {
    TrimRight(TrimLeft(s))
  }

  lemma TrimLeftSpaces(w: string, y: string)
    requires AllSpace(w)
    ensures TrimLeft(w + y) == TrimLeft(y)
  {
    var s := w + y;
    var e := SpaceRunEnd(y, 0);
    assert forall k :: 0 <= k < |w| ==> s[k] == w[k];
    assert forall k :: |w| <= k < |s| ==> s[k] == y[k - |w|];
    SpaceRunEndIs(s, 0, |w| + e);
    assert s[|w| + e..] == y[e..];
  }

  lemma TrimRightSpaces(y: string, w: string)
    requires AllSpace(w)
    ensures TrimRight(y + w) == TrimRight(y)
  {
    var s := y + w;
    var b := SpaceRunStart(y, |y|);
    assert forall k :: 0 <= k < |y| ==> s[k] == y[k];
    assert forall k :: |y| <= k < |s| ==> s[k] == w[k - |y|];
    SpaceRunStartIs(s, b, |s|);
    assert s[..b] == y[..b];
  }

  lemma TrimLeftNoSpace(y: string)
    requires y == [] || !IsSpace(y[0])
    ensures TrimLeft(y) == y
  {
    SpaceRunEndIs(y, 0, 0);
  }

  lemma TrimRightNoSpace(y: string)
    requires y == [] || !IsSpace(y[|y| - 1])
    ensures TrimRight(y) == y
  {
    SpaceRunStartIs(y, |y|, |y|);
  }

  /** Text that starts with a non-space character does not strip to nothing. */
  lemma StripNonBlank(x: string)
    requires x != [] && !IsSpace(x[0])
    ensures Strip(x) != []
  {
    TrimLeftNoSpace(x);
    assert SpaceRunStart(x, |x|) > 0;
  }

  /** Stripping text padded by white space on both sides gives back the text. */
  lemma StripPadded(w1: string, x: string, w2: string)
    requires AllSpace(w1) && AllSpace(w2) && Trimmed(x)
    ensures Strip(w1 + x + w2) == x
  {
    var y := x + w2;
    assert w1 + x + w2 == w1 + y;
    TrimLeftSpaces(w1, y);
    if x == [] {
      assert y == w2 + [];
      TrimLeftSpaces(w2, []);
      assert TrimLeft(y) == [];
    } else {
      assert y[0] == x[0];
      TrimLeftNoSpace(y);
      TrimRightSpaces(x, w2);
      TrimRightNoSpace(x);
    }
  }

  lemma StripTrimmed(x: string)
    requires Trimmed(x)
    ensures Strip(x) == x
  {
    if x != [] {
      SpaceRunEndIs(x, 0, 0);
      SpaceRunStartIs(x, |x|, |x|);
    }
  }

  /** `s` is its stripped text with white space before and after it. */
  lemma StripParts(s: string) returns (i: nat)
    ensures i + |Strip(s)| <= |s|
    ensures s[i..i + |Strip(s)|] == Strip(s)
    ensures AllSpace(s[..i]) && AllSpace(s[i + |Strip(s)|..])
  {
    i := SpaceRunEnd(s, 0);
    var l := s[i..];
    var b := SpaceRunStart(l, |l|);
    assert Strip(s) == l[..b];
    assert s[i..i + b] == l[..b];
    assert forall k :: 0 <= k < i ==> s[..i][k] == s[k];
    assert forall k :: i + b <= k < |s| ==> s[k] == l[k - i];
  }

  /** `str.strip()` is idempotent. */
  lemma StripIdempotent(s: string)
    ensures Strip(Strip(s)) == Strip(s)
  {
    StripTrimmed(Strip(s));
  }

  /** What `^(\w+)` captures: the longest prefix made of word characters. */
  function WordPrefix(s: string): (r: string)
    ensures |r| <= |s| && r == s[..|r|]
    ensures forall i :: 0 <= i < |r| ==> IsWordChar(r[i])
    ensures |r| < |s| ==> !IsWordChar(s[|r|])
  {
    if s != [] && IsWordChar(s[0]) then [s[0]] + WordPrefix(s[1..]) else []
  }

  function Join(parts: seq<string>, sep: char): string {
    if parts == [] then []
    else if |parts| == 1 then parts[0]
    else parts[0] + [sep] + Join(parts[1..], sep)
  }

  /** `s.split(sep)`: the pieces between separators, in order; `"".split(sep)` is `[""]`. */
  function Split(s: string, sep: char): (parts: seq<string>)
    ensures |parts| > 0
    ensures forall k :: 0 <= k < |parts| ==> sep !in parts[k]
    ensures Join(parts, sep) == s
  {
    if s == [] then [[]]
    else
      var rest := Split(s[1..], sep);
      if s[0] == sep then
        assert Join([[]] + rest, sep) == [sep] + Join(rest, sep);
        [[]] + rest
      else
        var parts := [[s[0]] + rest[0]] + rest[1..];
        assert Join(parts, sep) == [s[0]] + Join(rest, sep) by {
          if |rest| > 1 {
            assert parts[1..] == rest[1..];
          }
        }
        parts
  }

  lemma {:induction false} SplitNoSeparator(p: string, sep: char)
    requires sep !in p
    ensures Split(p, sep) == [p]
  {
    if p != [] {
      SplitNoSeparator(p[1..], sep);
      assert [p[0]] + p[1..] == p;
    }
  }

  lemma {:induction false} SplitAfterPiece(p: string, sep: char, t: string)
    requires sep !in p
    ensures Split(p + [sep] + t, sep) == [p] + Split(t, sep)
  {
    if p == [] {
      assert p + [sep] + t == [sep] + t;
      assert ([sep] + t)[1..] == t;
    } else {
      assert (p + [sep] + t)[1..] == p[1..] + [sep] + t;
      SplitAfterPiece(p[1..], sep, t);
      assert [p[0]] + p[1..] == p;
    }
  }

  /** Splitting a join of separator-free pieces gives the pieces back. */
  lemma {:induction false} SplitJoin(parts: seq<string>, sep: char)
    requires |parts| > 0
    requires forall k :: 0 <= k < |parts| ==> sep !in parts[k]
    ensures Split(Join(parts, sep), sep) == parts
  {
    if |parts| == 1 {
      SplitNoSeparator(parts[0], sep);
    } else {
      SplitJoin(parts[1..], sep);
      SplitAfterPiece(parts[0], sep, Join(parts[1..], sep));
      assert [parts[0]] + parts[1..] == parts;
    }
  }

  /** Python's `<` on `str`: lexicographic order of code points. */
  predicate LexLess(a: string, b: string)
    decreases |a|
  {
    if a == [] then b != []
    else if b == [] then false
    else if a[0] != b[0] then a[0] < b[0]
    else LexLess(a[1..], b[1..])
  }

  /** Exactly one of `a < b`, `a == b`, `b < a` holds. */
  lemma {:induction false} LexTrichotomy(a: string, b: string)
    ensures LexLess(a, b) ==> a != b && !LexLess(b, a)
    ensures a != b ==> LexLess(a, b) || LexLess(b, a)
    decreases |a|
  {
    if a != [] && b != [] && a[0] == b[0] {
      LexTrichotomy(a[1..], b[1..]);
      assert a == [a[0]] + a[1..] && b == [b[0]] + b[1..];
    }
  }
}
