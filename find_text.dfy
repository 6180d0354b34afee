/**
 * `find_text(text, left_delimiter, right_delimiter=None, max_chars=None)`
 * (utilisys/utilisys.py:325-357).
 *
 * The source escapes both delimiters, builds one of four regular
 * expressions and runs `re.search(pattern, text, re.DOTALL)`. Here the
 * regular-expression semantics is stated on its own (MatchesAt,
 * IsSearchResult: the leftmost start where the pattern can match, and at
 * that start the group length the engine tries first), and each of the
 * four searches is computed with plain literal search and index
 * arithmetic and proved to return exactly that match.
 */
module FindText {
  import opened Wrappers
  import opened PyStr

  /** What follows the escaped left delimiter in the pattern. */
  datatype Pattern =
    | Rest                                // (.*)
    | UpTo(n: nat)                        // (.{0,n})
    | Until(right: string)                // (.*?)(?=right)
    | UntilWithin(right: string, n: nat)  // (.{0,n}?)(?=right)

  /**
   * The choice at lines 337-349. `if right_delimiter:` is false for both
   * `None` and `""`, so an empty right delimiter selects the same pattern
   * as an absent one.
   */
  function ChoosePattern(right: Option<string>, maxChars: Option<nat>): Pattern {
    if right.Some? && right.value != "" then
      if maxChars.Some? then UntilWithin(right.value, maxChars.value) else Until(right.value)
    else
      if maxChars.Some? then UpTo(maxChars.value) else Rest
  }

  /** A lazy group (`*?`, `{0,n}?`) tries the shortest length first, a greedy one the longest. */
  predicate Lazy(p: Pattern) {
    p.Until? || p.UntilWithin?
  }

  /**
   * With the left delimiter matched at index `s`, the rest of the pattern
   * can succeed with a group of `k` characters. Under `re.DOTALL`, `.`
   * matches every character, so only the count and the lookahead
   * constrain the group.
   */
  ghost predicate Admits(p: Pattern, text: string, left: string, s: nat, k: nat) {
    var start := s + |left|;
    start + k <= |text| &&
    match p
    case Rest => true
    case UpTo(n) => k <= n
    case Until(right) => OccursAt(right, text, start + k)
    case UntilWithin(right, n) => k <= n && OccursAt(right, text, start + k)
  }

  /** `k` is the group length the engine settles on at `s`. */
  ghost predicate Preferred(p: Pattern, text: string, left: string, s: nat, k: nat) {
    && Admits(p, text, left, s, k)
    && (Lazy(p) ==> forall j: nat :: j < k ==> !Admits(p, text, left, s, j))
    && (!Lazy(p) ==> forall j: nat :: k < j ==> !Admits(p, text, left, s, j))
  }

  /** The whole pattern, left delimiter included, matches at index `s`. */
  ghost predicate MatchesAt(p: Pattern, text: string, left: string, s: nat) {
    OccursAt(left, text, s) && exists k: nat :: Admits(p, text, left, s, k)
  }

  ghost predicate NoMatch(p: Pattern, text: string, left: string) {
    forall s: nat :: !MatchesAt(p, text, left, s)
  }

  /** A match: where the left delimiter starts, and the length of group 1. */
  datatype Span = Span(at: nat, len: nat)

  /** `span` is what `re.search` finds: the leftmost match, with the preferred group. */
  ghost predicate IsSearchResult(p: Pattern, text: string, left: string, span: Span) {
    && OccursAt(left, text, span.at)
    && Preferred(p, text, left, span.at, span.len)
    && forall s: nat :: s < span.at ==> !MatchesAt(p, text, left, s)
  }

  /** `match.group(1)`. */
  function Group(text: string, left: string, span: Span): string
    requires span.at + |left| + span.len <= |text|
  {
    text[span.at + |left|..span.at + |left| + span.len]
  }

  /** Pattern `left(.*)`: everything after the first left delimiter. */
  function SearchRest(text: string, left: string): (m: Option<Span>)
    ensures m.None? <==> NoMatch(Rest, text, left)
    ensures m.Some? ==> IsSearchResult(Rest, text, left, m.value)
  {
    match IndexFrom(left, text, 0)
    case None => None
    case Some(i) =>
      var k := |text| - (i + |left|);
      assert Admits(Rest, text, left, i, k);
      assert MatchesAt(Rest, text, left, i);
      Some(Span(i, k))
  }

  /** Pattern `left(.{0,n})`: up to `n` characters after the first left delimiter. */
  function SearchUpTo(text: string, left: string, n: nat): (m: Option<Span>)
    ensures m.None? <==> NoMatch(UpTo(n), text, left)
    ensures m.Some? ==> IsSearchResult(UpTo(n), text, left, m.value)
  {
    match IndexFrom(left, text, 0)
    case None => None
    case Some(i) =>
      var avail := |text| - (i + |left|);
      var k := if n < avail then n else avail;
      assert Admits(UpTo(n), text, left, i, k);
      assert MatchesAt(UpTo(n), text, left, i);
      Some(Span(i, k))
  }

  /**
   * Pattern `left(.*?)(?=right)`: the text between the first left
   * delimiter and the first right delimiter that starts at or after its
   * end. No later left delimiter can do better: any right delimiter after
   * it is also after the first one.
   */
  function SearchUntil(text: string, left: string, right: string): (m: Option<Span>)
    ensures m.None? <==> NoMatch(Until(right), text, left)
    ensures m.Some? ==> IsSearchResult(Until(right), text, left, m.value)
  {
    var p := Until(right);
    match IndexFrom(left, text, 0)
    case None =>
      NoMoreMatches(p, text, left, 0);
      None
    case Some(i) =>
      var start := i + |left|;
      match IndexFrom(right, text, start)
      case None =>
        UntilNoMatch(text, left, right, i);
        None
      case Some(j) =>
        UntilHit(text, left, right, i, j);
        Some(Span(i, j - start))
  }

  /** The first right delimiter after the first left delimiter gives the match. */
  lemma UntilHit(text: string, left: string, right: string, i: nat, j: nat)
    requires IndexFrom(left, text, 0) == Some(i) && IndexFrom(right, text, i + |left|) == Some(j)
    ensures IsSearchResult(Until(right), text, left, Span(i, j - (i + |left|)))
    ensures MatchesAt(Until(right), text, left, i)
  {
    UntilResult(text, left, right, i, j);
    assert Admits(Until(right), text, left, i, j - (i + |left|));
  }

  /** No right delimiter after the end of the first left delimiter: the lazy pattern matches nowhere. */
  lemma UntilNoMatch(text: string, left: string, right: string, i: nat)
    requires IndexFrom(left, text, 0) == Some(i) && IndexFrom(right, text, i + |left|).None?
    ensures NoMatch(Until(right), text, left)
  {
    forall s: nat, k: nat | OccursAt(left, text, s)
      ensures !Admits(Until(right), text, left, s, k)
    {
      assert !OccursAt(right, text, s + |left| + k);
    }
  }

  /** Where the left delimiter does not occur, no match starts. */
  lemma NoLeftNoMatch(p: Pattern, text: string, left: string, from: nat, to: nat)
    requires forall j: nat :: from <= j < to ==> !OccursAt(left, text, j)
    ensures forall s: nat :: from <= s < to ==> !MatchesAt(p, text, left, s)
  {
  }

  /** With no match before `from` and no left delimiter from there on, there is no match at all. */
  lemma NoMoreMatches(p: Pattern, text: string, left: string, from: nat)
    requires forall t: nat :: t < from ==> !MatchesAt(p, text, left, t)
    requires forall j: nat :: from <= j ==> !OccursAt(left, text, j)
    ensures NoMatch(p, text, left)
  {
  }

  /** Extending the stretch without a match by one more index. */
  lemma NoMatchThrough(p: Pattern, text: string, left: string, from: nat, s: nat)
    requires from <= s
    requires forall t: nat :: t < from ==> !MatchesAt(p, text, left, t)
    requires forall j: nat :: from <= j < s ==> !OccursAt(left, text, j)
    requires !MatchesAt(p, text, left, s)
    ensures forall t: nat :: t < s + 1 ==> !MatchesAt(p, text, left, t)
  {
    NoLeftNoMatch(p, text, left, from, s);
  }

  /**
   * At a left delimiter at `i`, `(.{0,n}?)(?=right)` settles on the first
   * right delimiter at or after its end, when that one starts within `n`
   * characters.
   */
  lemma WithinFound(text: string, left: string, right: string, n: nat, i: nat, j: nat)
    requires OccursAt(left, text, i)
    requires IndexFrom(right, text, i + |left|) == Some(j) && j - (i + |left|) <= n
    ensures Preferred(UntilWithin(right, n), text, left, i, j - (i + |left|))
    ensures MatchesAt(UntilWithin(right, n), text, left, i)
  {
    assert Admits(UntilWithin(right, n), text, left, i, j - (i + |left|));
  }

  /** Otherwise the pattern does not match at `i`. */
  lemma WithinNotAt(text: string, left: string, right: string, n: nat, i: nat)
    requires var j := IndexFrom(right, text, i + |left|);
             !(j.Some? && j.value - (i + |left|) <= n)
    ensures !MatchesAt(UntilWithin(right, n), text, left, i)
  {
    var start := i + |left|;
    forall k: nat
      ensures !Admits(UntilWithin(right, n), text, left, i, k)
    {
      if k <= n {
        assert !OccursAt(right, text, start + k);
      }
    }
  }

  /**
   * Pattern `left(.{0,n}?)(?=right)`, searched from index `from` on: at
   * the leftmost left delimiter, the first right delimiter at or after its
   * end must start within `n` characters; if it does not, the search goes
   * on at the next left delimiter.
   */
  function SearchUntilWithinFrom(text: string, left: string, right: string, n: nat, from: nat): (m: Option<Span>)
    requires forall s: nat :: s < from ==> !MatchesAt(UntilWithin(right, n), text, left, s)
    ensures m.None? ==> NoMatch(UntilWithin(right, n), text, left)
    ensures m.Some? ==> IsSearchResult(UntilWithin(right, n), text, left, m.value)
    decreases |text| - from
  {
    match IndexFrom(left, text, from)
    case None =>
      NoMoreMatches(UntilWithin(right, n), text, left, from);
      None
    case Some(i) =>
      var start := i + |left|;
      var j := IndexFrom(right, text, start);
      if j.Some? && j.value - start <= n then
        WithinHit(text, left, right, n, from, i, j.value);
        Some(Span(i, j.value - start))
      else
        WithinMiss(text, left, right, n, from, i);
        if i < |text| then SearchUntilWithinFrom(text, left, right, n, i + 1)
        else
          NoMoreMatches(UntilWithin(right, n), text, left, i + 1);
          None
  }

  /** The leftmost left delimiter from `from` on is followed by a right delimiter within `n`: that is the match. */
  lemma WithinHit(text: string, left: string, right: string, n: nat, from: nat, i: nat, j: nat)
    requires forall s: nat :: s < from ==> !MatchesAt(UntilWithin(right, n), text, left, s)
    requires IndexFrom(left, text, from) == Some(i)
    requires IndexFrom(right, text, i + |left|) == Some(j) && j - (i + |left|) <= n
    ensures IsSearchResult(UntilWithin(right, n), text, left, Span(i, j - (i + |left|)))
  {
    WithinFound(text, left, right, n, i, j);
    NoLeftNoMatch(UntilWithin(right, n), text, left, from, i);
  }

  /** It is not: no match starts up to and including that left delimiter. */
  lemma WithinMiss(text: string, left: string, right: string, n: nat, from: nat, i: nat)
    requires forall s: nat :: s < from ==> !MatchesAt(UntilWithin(right, n), text, left, s)
    requires IndexFrom(left, text, from) == Some(i)
    requires var j := IndexFrom(right, text, i + |left|);
             !(j.Some? && j.value - (i + |left|) <= n)
    ensures forall s: nat :: s < i + 1 ==> !MatchesAt(UntilWithin(right, n), text, left, s)
  {
    WithinNotAt(text, left, right, n, i);
    NoMatchThrough(UntilWithin(right, n), text, left, from, i);
  }

  function SearchUntilWithin(text: string, left: string, right: string, n: nat): (m: Option<Span>)
    ensures m.None? <==> NoMatch(UntilWithin(right, n), text, left)
    ensures m.Some? ==> IsSearchResult(UntilWithin(right, n), text, left, m.value)
  {
    var m := SearchUntilWithinFrom(text, left, right, n, 0);
    if m.Some? then
      assert MatchesAt(UntilWithin(right, n), text, left, m.value.at);
      m
    else m
  }

  /** `re.search(pattern, text, re.DOTALL)` for the pattern `left` followed by `p`. */
  function Search(p: Pattern, text: string, left: string): (m: Option<Span>)
    ensures m.None? <==> NoMatch(p, text, left)
    ensures m.Some? ==> IsSearchResult(p, text, left, m.value)
  {
    match p
    case Rest => SearchRest(text, left)
    case UpTo(n) => SearchUpTo(text, left, n)
    case Until(right) => SearchUntil(text, left, right)
    case UntilWithin(right, n) => SearchUntilWithin(text, left, right, n)
  }

  /** There is only one leftmost match with a preferred group. */
  lemma SearchResultUnique(p: Pattern, text: string, left: string, a: Span, b: Span)
    requires IsSearchResult(p, text, left, a) && IsSearchResult(p, text, left, b)
    ensures a == b
  {
    assert MatchesAt(p, text, left, a.at) && MatchesAt(p, text, left, b.at);
  }

  /** Whatever `span` is the search result, `Search` returns it. */
  lemma SearchIs(p: Pattern, text: string, left: string, span: Span)
    requires IsSearchResult(p, text, left, span)
    ensures Search(p, text, left) == Some(span)
  {
    assert MatchesAt(p, text, left, span.at);
    SearchResultUnique(p, text, left, Search(p, text, left).value, span);
  }

  /** The stripped group of the leftmost match of `left` followed by `p`, if any. */
  function Find(p: Pattern, text: string, left: string): (r: Option<string>)
    ensures r.None? <==> NoMatch(p, text, left)
    ensures r.Some? ==> NoEdgeSpace(r.value)
  {
    match Search(p, text, left)
    case None => None
    case Some(span) => Some(Strip(Group(text, left, span)))
  }

  /** The bound `n` of a pattern that has one. */
  function Bound(p: Pattern): Option<nat> {
    match p
    case UpTo(n) => Some(n)
    case UntilWithin(_, n) => Some(n)
    case _ => None
  }

  /** Under a bounded pattern the group, and so its stripped form, has at most `n` characters. */
  lemma FindBounded(p: Pattern, text: string, left: string)
    requires Bound(p).Some? && Find(p, text, left).Some?
    ensures |Find(p, text, left).value| <= Bound(p).value
  {
    var span := Search(p, text, left).value;
    assert Admits(p, text, left, span.at, span.len);
    assert |Group(text, left, span)| == span.len;
  }

  /**
   * `find_text`: the stripped group of the leftmost match, or `None` when
   * the pattern matches nowhere.
   */
  function FindText(text: string, left: string, right: Option<string>, maxChars: Option<nat>): (r: Option<string>)
    ensures r.None? <==> NoMatch(ChoosePattern(right, maxChars), text, left)
    ensures r.Some? ==> NoEdgeSpace(r.value)
    ensures r.Some? && maxChars.Some? ==> |r.value| <= maxChars.value
  {
    var p := ChoosePattern(right, maxChars);
    var r := Find(p, text, left);
    if maxChars.Some? && r.Some? then FindBounded(p, text, left); r else r
  }

  /**
   * CPython's regular-expression parser refuses a repeat bound of
   * `MAXREPEAT` (4294967295) or more.
   */
  const MaxRepeat: nat := 4294967295

  /** The exception compiling a pattern with too large a repeat bound raises. */
  datatype CompileError = OverflowError

  /**
   * `find_text` including the compilation of its pattern: with a
   * `max_chars` of `MaxRepeat` or more `re.search` raises `OverflowError`
   * (both bounded patterns carry `{0,max_chars}`); otherwise the result
   * of `FindText`.
   */
  function FindTextOrRaise(text: string, left: string, right: Option<string>, maxChars: Option<nat>): (r: Result<Option<string>, CompileError>)
    ensures r.Failure? <==> maxChars.Some? && maxChars.value >= MaxRepeat
    ensures r.Success? ==> (r.value.None? <==> NoMatch(ChoosePattern(right, maxChars), text, left))
    ensures r.Success? && r.value.Some? ==> NoEdgeSpace(r.value.value)
    ensures r.Success? && r.value.Some? && maxChars.Some? ==> |r.value.value| <= maxChars.value
    ensures r.Success? ==> r.value == FindText(text, left, right, maxChars)
  {
    if maxChars.Some? && maxChars.value >= MaxRepeat then Failure(OverflowError)
    else Success(FindText(text, left, right, maxChars))
  }

  /** `find_text` is `Find` under the pattern its arguments choose. */
  lemma FindTextIsFind(text: string, left: string, right: Option<string>, maxChars: Option<nat>)
    ensures FindText(text, left, right, maxChars) == Find(ChoosePattern(right, maxChars), text, left)
  {
  }

  /** When `span` is the search result, `Find` returns its stripped group. */
  lemma FindIs(p: Pattern, text: string, left: string, span: Span)
    requires IsSearchResult(p, text, left, span)
    ensures span.at + |left| + span.len <= |text|
    ensures Find(p, text, left) == Some(Strip(Group(text, left, span)))
  {
    SearchIs(p, text, left, span);
  }

  /** `find_text` without bounds, at a known search result. */
  lemma FindRestIs(text: string, left: string, span: Span)
    requires IsSearchResult(Rest, text, left, span)
    ensures span.at + |left| + span.len <= |text|
    ensures FindText(text, left, None, None) == Some(Strip(Group(text, left, span)))
  {
    assert ChoosePattern(None, None) == Rest;
    FindTextIsFind(text, left, None, None);
    FindIs(Rest, text, left, span);
  }

  /** `find_text` with `max_chars` only, at a known search result. */
  lemma FindUpToIs(text: string, left: string, n: nat, span: Span)
    requires IsSearchResult(UpTo(n), text, left, span)
    ensures span.at + |left| + span.len <= |text|
    ensures FindText(text, left, None, Some(n)) == Some(Strip(Group(text, left, span)))
  {
    assert ChoosePattern(None, Some(n)) == UpTo(n);
    FindTextIsFind(text, left, None, Some(n));
    FindIs(UpTo(n), text, left, span);
  }

  /** `find_text` with a right delimiter and no `max_chars`, at a known search result. */
  lemma FindUntilIs(text: string, left: string, right: string, span: Span)
    requires right != ""
    requires IsSearchResult(Until(right), text, left, span)
    ensures span.at + |left| + span.len <= |text|
    ensures FindText(text, left, Some(right), None) == Some(Strip(Group(text, left, span)))
  {
    assert ChoosePattern(Some(right), None) == Until(right);
    FindTextIsFind(text, left, Some(right), None);
    FindIs(Until(right), text, left, span);
  }

  /** `find_text` with both bounds, at a known search result. */
  lemma FindUntilWithinIs(text: string, left: string, right: string, n: nat, span: Span)
    requires right != ""
    requires IsSearchResult(UntilWithin(right, n), text, left, span)
    ensures span.at + |left| + span.len <= |text|
    ensures FindText(text, left, Some(right), Some(n)) == Some(Strip(Group(text, left, span)))
  {
    assert ChoosePattern(Some(right), Some(n)) == UntilWithin(right, n);
    FindTextIsFind(text, left, Some(right), Some(n));
    FindIs(UntilWithin(right, n), text, left, span);
  }

  /** A right delimiter that is absent or empty. */
  predicate NoRight(right: Option<string>) {
    right.None? || right.value == ""
  }

  /** An empty right delimiter behaves exactly like an absent one. */
  lemma EmptyRightIsAbsent(text: string, left: string, maxChars: Option<nat>)
    ensures FindText(text, left, Some(""), maxChars) == FindText(text, left, None, maxChars)
  {
  }

  /** Without a right delimiter, `None` comes back exactly when the left delimiter does not occur. */
  lemma NoRightNoneIffAbsent(text: string, left: string, right: Option<string>, maxChars: Option<nat>)
    requires NoRight(right)
    ensures FindText(text, left, right, maxChars).None? <==> forall i: nat :: !OccursAt(left, text, i)
  {
    var p := ChoosePattern(right, maxChars);
    if i: nat :| OccursAt(left, text, i) {
      assert Admits(p, text, left, i, 0);
    }
  }

  lemma RestResult(text: string, left: string, i: nat)
    requires FirstOccurrence(left, text, i)
    ensures IsSearchResult(Rest, text, left, Span(i, |text| - (i + |left|)))
  {
  }

  /** Without bounds: the stripped rest of the text after the first left delimiter. */
  lemma RestAfterFirstLeft(text: string, left: string, right: Option<string>, i: nat)
    requires NoRight(right)
    requires FirstOccurrence(left, text, i)
    ensures FindText(text, left, right, None) == Some(Strip(text[i + |left|..]))
  {
    var span := Span(i, |text| - (i + |left|));
    RestResult(text, left, i);
    assert Group(text, left, span) == text[i + |left|..];
    FindIs(Rest, text, left, span);
  }

  lemma UpToResult(text: string, left: string, n: nat, i: nat, e: nat)
    requires FirstOccurrence(left, text, i)
    requires e == if i + |left| + n < |text| then i + |left| + n else |text|
    ensures IsSearchResult(UpTo(n), text, left, Span(i, e - (i + |left|)))
  {
  }

  /**
   * With `max_chars` only: the stripped text of at most `n` characters
   * after the first left delimiter, so never longer than `n`.
   */
  lemma UpToAfterFirstLeft(text: string, left: string, right: Option<string>, n: nat, i: nat)
    requires NoRight(right)
    requires FirstOccurrence(left, text, i)
    ensures var e := if i + |left| + n < |text| then i + |left| + n else |text|;
            FindText(text, left, right, Some(n)) == Some(Strip(text[i + |left|..e]))
    ensures |FindText(text, left, right, Some(n)).value| <= n
  {
    var e := if i + |left| + n < |text| then i + |left| + n else |text|;
    var span := Span(i, e - (i + |left|));
    UpToResult(text, left, n, i, e);
    assert Group(text, left, span) == text[i + |left|..e];
    FindIs(UpTo(n), text, left, span);
  }

  lemma UntilResult(text: string, left: string, right: string, i: nat, j: nat)
    requires FirstOccurrence(left, text, i)
    requires i + |left| <= j && OccursAt(right, text, j)
    requires forall j': nat :: i + |left| <= j' < j ==> !OccursAt(right, text, j')
    ensures IsSearchResult(Until(right), text, left, Span(i, j - (i + |left|)))
  {
    var p := Until(right);
    forall k: nat | k < j - (i + |left|)
      ensures !Admits(p, text, left, i, k)
    {
      assert !OccursAt(right, text, i + |left| + k);
    }
  }

  /**
   * With a right delimiter and no `max_chars`: the stripped text between
   * the first left delimiter and the first right delimiter that starts at
   * or after its end.
   */
  lemma UntilBetween(text: string, left: string, right: string, i: nat, j: nat)
    requires right != ""
    requires FirstOccurrence(left, text, i)
    requires i + |left| <= j && OccursAt(right, text, j)
    requires forall j': nat :: i + |left| <= j' < j ==> !OccursAt(right, text, j')
    ensures FindText(text, left, Some(right), None) == Some(Strip(text[i + |left|..j]))
  {
    var span := Span(i, j - (i + |left|));
    UntilResult(text, left, right, i, j);
    assert Group(text, left, span) == text[i + |left|..j];
    FindIs(Until(right), text, left, span);
  }

  /**
   * With a right delimiter and no `max_chars`, `None` comes back exactly
   * when no left delimiter is followed (at or after its end) by a right
   * delimiter; this covers a left delimiter with nothing matching after it.
   */
  lemma UntilNoneIffNoPair(text: string, left: string, right: string)
    requires right != ""
    ensures FindText(text, left, Some(right), None).None?
       <==> forall i: nat, j: nat :: OccursAt(left, text, i) && OccursAt(right, text, j) ==> j < i + |left|
  {
    assert ChoosePattern(Some(right), None) == Until(right);
    NoMatchIffNoPair(text, left, right);
  }

  /** The lazy pattern with a lookahead matches nowhere exactly when no right delimiter follows a left one. */
  lemma NoMatchIffNoPair(text: string, left: string, right: string)
    ensures NoMatch(Until(right), text, left)
       <==> forall i: nat, j: nat :: OccursAt(left, text, i) && OccursAt(right, text, j) ==> j < i + |left|
  {
    var p := Until(right);
    if i: nat, j: nat :| OccursAt(left, text, i) && OccursAt(right, text, j) && i + |left| <= j {
      assert Admits(p, text, left, i, j - (i + |left|));
      assert MatchesAt(p, text, left, i);
    }
    if s: nat :| MatchesAt(p, text, left, s) {
      var k: nat :| Admits(p, text, left, s, k);
      assert OccursAt(right, text, s + |left| + k);
    }
  }

  /**
   * With both bounds, a result is at most `max_chars` long and is the
   * stripped group of a match: a left delimiter, at most `max_chars`
   * characters, and a right delimiter starting right after them.
   */
  lemma UntilWithinBounded(text: string, left: string, right: string, n: nat)
    requires right != ""
    ensures var r := FindText(text, left, Some(right), Some(n));
            var m := Search(UntilWithin(right, n), text, left);
            r.Some? ==> && m.Some?
                        && |r.value| <= m.value.len <= n
                        && OccursAt(left, text, m.value.at)
                        && m.value.at + |left| + m.value.len <= |text|
                        && OccursAt(right, text, m.value.at + |left| + m.value.len)
                        && r.value == Strip(Group(text, left, m.value))
  {
    var m := Search(UntilWithin(right, n), text, left);
    if m.Some? {
      FindUntilWithinIs(text, left, right, n, m.value);
    }
  }

  /** The occurrences of "[" and "]" in "[ab[c]". */
  lemma BracketsFacts(text: string)
    requires text == "[ab[c]"
    ensures FirstOccurrence("[", text, 0) && OccursAt("[", text, 3)
    ensures forall s: nat :: 0 < s < 3 ==> !OccursAt("[", text, s)
    ensures forall j: nat :: j != 5 ==> !OccursAt("]", text, j)
    ensures OccursAt("]", text, 5)
  {
    forall j: nat | j != 5 && j + 1 <= |text|
      ensures !OccursAt("]", text, j)
    {
      assert text[j..j + 1][0] == text[j];
    }
    forall s: nat | 0 < s < 3
      ensures !OccursAt("[", text, s)
    {
      assert text[s..s + 1][0] == text[s];
    }
  }

  /** In "[ab[c]", "[" followed by at most one character and "]" first matches at index 3. */
  lemma BracketsWithinResult(text: string)
    requires text == "[ab[c]"
    ensures IsSearchResult(UntilWithin("]", 1), text, "[", Span(3, 1))
  {
    BracketsFacts(text);
  }

  /** In "[ab[c]", "[" followed by the shortest run before "]" matches at index 0. */
  lemma BracketsUntilResult(text: string)
    requires text == "[ab[c]"
    ensures IsSearchResult(Until("]"), text, "[", Span(0, 4))
  {
    BracketsFacts(text);
    UntilResult(text, "[", "]", 0, 5);
  }

  /**
   * With both bounds the search may skip a left delimiter: in "[ab[c]"
   * the first "[" is not followed by "]" within one character, so the
   * group is taken after the second "[".
   */
  lemma UntilWithinSkipsToLaterLeft(text: string)
    requires text == "[ab[c]"
    ensures FindText(text, "[", Some("]"), Some(1)) == Some("c")
  {
    BracketsWithinResult(text);
    assert text[4..5] == "c";
    StripNoEdge("c");
    FindUntilWithinIs(text, "[", "]", 1, Span(3, 1));
  }

  /** Without `max_chars` the same text yields the group after the first "[". */
  lemma UntilUsesFirstLeft(text: string)
    requires text == "[ab[c]"
    ensures FindText(text, "[", Some("]"), None) == Some("ab[c")
  {
    BracketsUntilResult(text);
    assert text[1..5] == "ab[c";
    StripNoEdge("ab[c");
    FindUntilIs(text, "[", "]", Span(0, 4));
  }

  /** In "AAA<B>123</B>CCC" the tags match at index 3 around three characters. */
  lemma TagsFacts(text: string)
    requires text == "AAA<B>123</B>CCC"
    ensures IsSearchResult(Until("</B>"), text, "<B>", Span(3, 3))
  {
    assert text[3..6] == "<B>" && text[9..13] == "</B>";
    forall j: nat | j < 3
      ensures !OccursAt("<B>", text, j)
    {
      assert text[j..j + 3][0] == text[j];
    }
    forall j: nat | 6 <= j < 9
      ensures !OccursAt("</B>", text, j)
    {
      assert text[j..j + 4][0] == text[j];
    }
    UntilResult(text, "<B>", "</B>", 3, 9);
  }

  /** Example: the text between two tags. */
  lemma ExampleBetweenTags(text: string)
    requires text == "AAA<B>123</B>CCC"
    ensures FindText(text, "<B>", Some("</B>"), None) == Some("123")
  {
    TagsFacts(text);
    assert text[6..9] == "123";
    StripNoEdge("123");
    FindUntilIs(text, "<B>", "</B>", Span(3, 3));
  }

  lemma AfterPrefixFacts(text: string, left: string)
    requires text == "prefix: hello world" && left == "prefix: "
    ensures IsSearchResult(Rest, text, left, Span(0, 11))
    ensures Strip(Group(text, left, Span(0, 11))) == "hello world"
  {
    assert text[..8] == left;
    RestResult(text, left, 0);
    assert text[8..19] == "hello world";
    StripNoEdge("hello world");
  }

  /** Example: everything after a prefix. */
  lemma ExampleAfterPrefix(text: string, left: string)
    requires text == "prefix: hello world" && left == "prefix: "
    ensures FindText(text, left, None, None) == Some("hello world")
  {
    AfterPrefixFacts(text, left);
    FindRestIs(text, left, Span(0, 11));
  }

  lemma MaxCharsFacts(text: string, left: string)
    requires text == "X=abcdefgh;" && left == "X="
    ensures IsSearchResult(UpTo(4), text, left, Span(0, 4))
    ensures Strip(Group(text, left, Span(0, 4))) == "abcd"
  {
    assert text[..2] == left;
    UpToResult(text, left, 4, 0, 6);
    MaxCharsGroup(text, left);
  }

  lemma MaxCharsGroup(text: string, left: string)
    requires text == "X=abcdefgh;" && left == "X="
    ensures Strip(Group(text, left, Span(0, 4))) == "abcd"
  {
    assert text[2..6] == "abcd";
    StripNoEdge("abcd");
  }

  /** Example: at most four characters. */
  lemma ExampleMaxChars(text: string, left: string)
    requires text == "X=abcdefgh;" && left == "X="
    ensures FindText(text, left, None, Some(4)) == Some("abcd")
  {
    MaxCharsFacts(text, left);
    FindUpToIs(text, left, 4, Span(0, 4));
  }

  /** Example: no left delimiter, no result. */
  lemma ExampleNoMarker(text: string, left: string)
    requires text == "no marker here" && left == "<B>"
    ensures FindText(text, left, None, None) == None
  {
    forall i: nat
      ensures !OccursAt(left, text, i)
    {
      if i + 3 <= |text| {
        assert text[i..i + 3][0] == text[i];
      }
    }
    NoRightNoneIffAbsent(text, left, None, None);
  }

  lemma PaddedSearch(text: string, left: string, right: string)
    requires text == "A:   padded text   \nB" && left == "A:" && right == "B"
    ensures IsSearchResult(Until(right), text, left, Span(0, 18))
  {
    assert text[..2] == left && text[20..21] == right;
    forall j: nat | 2 <= j < 20
      ensures !OccursAt(right, text, j)
    {
      assert text[j..j + 1][0] == text[j];
    }
    UntilResult(text, left, right, 0, 20);
  }

  lemma PaddedGroup(text: string, left: string, w: string, name: string, w': string)
    requires text == "A:   padded text   \nB" && left == "A:"
    requires w == "   " && name == "padded text" && w' == "   \n"
    ensures Group(text, left, Span(0, 18)) == w + name + w'
  {
    assert text[2..20] == w + name + w';
  }

  lemma PaddedPieces(w: string, name: string, w': string)
    requires w == "   " && name == "padded text" && w' == "   \n"
    ensures AllSpace(w) && AllSpace(w') && NoEdgeSpace(name) && name != []
  {
  }

  /** A string padded with whitespace on both sides strips to its core. */
  lemma StripPadded(g: string, w: string, name: string, w': string)
    requires g == w + name + w' && AllSpace(w) && AllSpace(w') && NoEdgeSpace(name) && name != []
    ensures Strip(g) == name
  {
    assert g == w + (name + w');
    StripSpaceFirst(w, name + w');
    StripSpaceLast(name, w');
  }

  /** Example: the group is stripped of the whitespace and the line feed around it. */
  lemma ExampleTrimmed(text: string, left: string, right: string)
    requires text == "A:   padded text   \nB" && left == "A:" && right == "B"
    ensures FindText(text, left, Some(right), None) == Some("padded text")
  {
    var w, name, w' := "   ", "padded text", "   \n";
    PaddedSearch(text, left, right);
    PaddedGroup(text, left, w, name, w');
    PaddedPieces(w, name, w');
    StripPadded(Group(text, left, Span(0, 18)), w, name, w');
    FindUntilIs(text, left, right, Span(0, 18));
  }
}
