/**
 * The few operations on Python `str` values that the helpers rely on:
 * whitespace, literal search, `strip`, `lstrip(chars)`, `replace(c, "")`,
 * `split(sep)` and `sep.join(parts)`. Strings are sequences of Unicode
 * code points, as in Python 3.
 */
module PyStr {
  import opened Wrappers

  /**
   * `c.isspace()`, which is also the class `\s` matches in a `str` pattern
   * and the set of characters `str.strip()` removes.
   */
  predicate IsSpace(c: char) {
    || ('\t' <= c <= '\r')
    || ('\U{1C}' <= c <= '\U{1F}')
    || c == ' '
    || c == '\U{85}'
    || c == '\U{A0}'
    || c == '\U{1680}'
    || ('\U{2000}' <= c <= '\U{200A}')
    || c == '\U{2028}'
    || c == '\U{2029}'
    || c == '\U{202F}'
    || c == '\U{205F}'
    || c == '\U{3000}'
  }

  /** The class `\S`. */
  predicate NotSpace(c: char) {
    !IsSpace(c)
  }

  /** The class `.` without `re.DOTALL`: anything but a line feed. */
  predicate NotNewline(c: char) {
    c != '\n'
  }

  /** No leading and no trailing whitespace. */
  predicate NoEdgeSpace(s: string) {
    s == [] || (!IsSpace(s[0]) && !IsSpace(s[|s| - 1]))
  }

  predicate AllSpace(s: string) {
    forall i :: 0 <= i < |s| ==> IsSpace(s[i])
  }

  /** The literal `pat` occurs in `s` starting at index `i`. */
  predicate OccursAt(pat: string, s: string, i: nat) {
    i + |pat| <= |s| && s[i..i + |pat|] == pat
  }

  /** `pat` occurs at `i` and nowhere before it. */
  ghost predicate FirstOccurrence(pat: string, s: string, i: nat) {
    OccursAt(pat, s, i) && forall j: nat :: j < i ==> !OccursAt(pat, s, j)
  }

  lemma OccursAtChar(pat: string, s: string, i: nat, k: nat)
    requires OccursAt(pat, s, i) && k < |pat|
    ensures s[i + k] == pat[k]
  {
    assert s[i..i + |pat|][k] == s[i + k];
  }

  /** The leftmost occurrence of the literal `pat` in `s` at or after `from`. */
  function IndexFrom(pat: string, s: string, from: nat): (r: Option<nat>)
    ensures r.Some? ==> from <= r.value && OccursAt(pat, s, r.value)
    ensures r.Some? ==> forall j: nat :: from <= j < r.value ==> !OccursAt(pat, s, j)
    ensures r.None? ==> forall j: nat :: from <= j ==> !OccursAt(pat, s, j)
    decreases |s| - from
  {
    if OccursAt(pat, s, from) then Some(from)
    else if from >= |s| then None
    else IndexFrom(pat, s, from + 1)
  }

  /** The number of consecutive characters from `from` on that satisfy `f`. */
  function RunLength(s: string, from: nat, f: char -> bool): (n: nat)
    requires from <= |s|
    ensures from + n <= |s|
    ensures forall i :: from <= i < from + n ==> f(s[i])
    ensures from + n == |s| || !f(s[from + n])
    decreases |s| - from
  {
    if from < |s| && f(s[from]) then 1 + RunLength(s, from + 1, f) else 0
  }

  /** A run is measured by where it stops. */
  lemma {:induction false} RunLengthIs(s: string, from: nat, f: char -> bool, n: nat)
    requires from + n <= |s|
    requires forall i :: from <= i < from + n ==> f(s[i])
    requires from + n == |s| || !f(s[from + n])
    ensures RunLength(s, from, f) == n
    decreases n
  {
    if n > 0 {
      RunLengthIs(s, from + 1, f, n - 1);
    }
  }

  /** A run is at least as long as any stretch of characters satisfying `f` where it starts. */
  lemma {:induction false} RunLengthAtLeast(s: string, from: nat, f: char -> bool, n: nat)
    requires from + n <= |s|
    requires forall i :: from <= i < from + n ==> f(s[i])
    ensures RunLength(s, from, f) >= n
    decreases n
  {
    if n > 0 {
      RunLengthAtLeast(s, from + 1, f, n - 1);
    }
  }

  /** `s.lstrip()`. */
  function LStrip(s: string): (r: string)
    ensures |r| <= |s| && r == s[|s| - |r|..]
    ensures forall i :: 0 <= i < |s| - |r| ==> IsSpace(s[i])
    ensures r == [] || !IsSpace(r[0])
  {
    if s != [] && IsSpace(s[0]) then LStrip(s[1..]) else s
  }

  /** `s.rstrip()`. */
  function RStrip(s: string): (r: string)
    ensures |r| <= |s| && r == s[..|r|]
    ensures forall i :: |r| <= i < |s| ==> IsSpace(s[i])
    ensures r == [] || !IsSpace(r[|r| - 1])
  {
    if s != [] && IsSpace(s[|s| - 1]) then RStrip(s[..|s| - 1]) else s
  }

  /** `s.strip()`. */
  function Strip(s: string): (r: string)
    ensures |r| <= |s|
    ensures NoEdgeSpace(r)
  {
    RStrip(LStrip(s))
  }

  /** A string without whitespace at its ends is its own `strip()`. */
  lemma StripNoEdge(s: string)
    requires NoEdgeSpace(s)
    ensures Strip(s) == s
  {
  }

  /** `s.lstrip(c)` for a single character `c`. */
  function LStripChar(s: string, c: char): (r: string)
    ensures |r| <= |s| && r == s[|s| - |r|..]
    ensures forall i :: 0 <= i < |s| - |r| ==> s[i] == c
    ensures r == [] || r[0] != c
  {
    if s != [] && s[0] == c then LStripChar(s[1..], c) else s
  }

  /** `s.lstrip(c)` drops exactly the first `n` characters when they are the run of `c`. */
  lemma {:induction false} LStripCharIs(s: string, c: char, n: nat)
    requires n <= |s|
    requires forall i :: 0 <= i < n ==> s[i] == c
    requires n == |s| || s[n] != c
    ensures LStripChar(s, c) == s[n..]
  {
    if n > 0 {
      assert s[1..][n - 1..] == s[n..];
      LStripCharIs(s[1..], c, n - 1);
    }
  }

  /** Whitespace in front of a string does not change its `strip()`. */
  lemma StripSpaceFirst(w: string, s: string)
    requires AllSpace(w)
    ensures Strip(w + s) == Strip(s)
  {
    LStripSpaceFirst(w, s);
  }

  lemma {:induction false} LStripSpaceFirst(w: string, s: string)
    requires AllSpace(w)
    ensures LStrip(w + s) == LStrip(s)
    decreases |w|
  {
    if w != [] {
      var t := w + s;
      assert t[0] == w[0] && IsSpace(t[0]);
      assert t[1..] == w[1..] + s;
      assert LStrip(t) == LStrip(t[1..]);
      LStripSpaceFirst(w[1..], s);
    } else {
      assert w + s == s;
    }
  }

  /** Whitespace after a string without edge whitespace is all that `strip()` removes. */
  lemma StripSpaceLast(s: string, w: string)
    requires s != [] && NoEdgeSpace(s) && AllSpace(w)
    ensures Strip(s + w) == s
  {
    assert (s + w)[0] == s[0];
    assert LStrip(s + w) == s + w;
    RStripSpaceLast(s, w);
  }

  lemma {:induction false} RStripSpaceLast(s: string, w: string)
    requires s != [] && !IsSpace(s[|s| - 1]) && AllSpace(w)
    ensures RStrip(s + w) == s
    decreases |w|
  {
    if w == [] {
      assert s + w == s;
    } else {
      var t := s + w;
      assert t[|t| - 1] == w[|w| - 1];
      assert t[..|t| - 1] == s + w[..|w| - 1];
      RStripSpaceLast(s, w[..|w| - 1]);
    }
  }

  /** `s.replace(c, "")` for a single character `c`. */
  function RemoveChar(s: string, c: char): (r: string)
    ensures c !in r
    ensures |r| <= |s|
  {
    if s == [] then []
    else
      var rest := RemoveChar(s[1..], c);
      if s[0] == c then rest else [s[0]] + rest
  }

  /** Removal drops exactly the occurrences of `c`: every other character keeps its count. */
  lemma {:induction false} RemoveCharCounts(s: string, c: char)
    ensures forall x :: x != c ==> multiset(RemoveChar(s, c))[x] == multiset(s)[x]
    ensures |RemoveChar(s, c)| == |s| - multiset(s)[c]
  {
    if s != [] {
      RemoveCharCounts(s[1..], c);
      assert s == [s[0]] + s[1..];
      assert multiset(s) == multiset([s[0]]) + multiset(s[1..]);
    }
  }

  /** Removal keeps the order of what stays. */
  lemma {:induction false} RemoveCharConcat(a: string, b: string, c: char)
    ensures RemoveChar(a + b, c) == RemoveChar(a, c) + RemoveChar(b, c)
    decreases |a|
  {
    if a != [] {
      assert (a + b)[1..] == a[1..] + b;
      RemoveCharConcat(a[1..], b, c);
    } else {
      assert a + b == b;
    }
  }

  /** When `c` does not occur, `replace(c, "")` changes nothing. */
  lemma {:induction false} RemoveCharAbsent(s: string, c: char)
    requires c !in s
    ensures RemoveChar(s, c) == s
  {
    if s != [] {
      RemoveCharAbsent(s[1..], c);
    }
  }

  /** `sep.join(parts)`. */
  function Join(sep: string, parts: seq<string>): string {
    if parts == [] then ""
    else if |parts| == 1 then parts[0]
    else parts[0] + sep + Join(sep, parts[1..])
  }

  /** `s.split(sep)` for a one-character separator. */
  function Split(s: string, sep: char): (parts: seq<string>)
    ensures |parts| >= 1
    ensures forall i :: 0 <= i < |parts| ==> sep !in parts[i]
    ensures Join([sep], parts) == s
    decreases |s|
  {
    if s == [] then [[]]
    else
      var rest := Split(s[1..], sep);
      if s[0] == sep then
        assert s == [sep] + s[1..];
        [[]] + rest
      else
        var parts := [[s[0]] + rest[0]] + rest[1..];
        assert parts[1..] == rest[1..];
        assert s == [s[0]] + s[1..];
        parts
  }
}
