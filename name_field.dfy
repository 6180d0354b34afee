/**
 * `get_name_from_string(s)` (utilisys/utilisys.py:478-489):
 * `re.search(r"Name:\s*(.+)", s)`, returning group 1 or "Name not found".
 *
 * Without `re.DOTALL`, `.` matches anything but a line feed, while `\s`
 * also matches line feeds. `\s*` is greedy, so the engine first lets it
 * take the whole run of whitespace after the label; when that run reaches
 * the end of the text, `.+` has nothing left and the engine gives
 * whitespace back, one character at a time, until `.+` can start on a
 * character that is not a line feed. So "Name: " yields " ", and a
 * label followed only by line feeds does not match there at all.
 */
module NameField {
  import opened Wrappers
  import opened PyStr

  const Label: string := "Name:"
  const NotFound: string := "Name not found"

  /** With the label at `s`, `\s*` can take `w` characters and the group `.+` can end at `e`. */
  ghost predicate Admits(text: string, s: nat, w: nat, e: nat) {
    var q := s + |Label|;
    && OccursAt(Label, text, s)
    && q + w < e <= |text|
    && (forall i :: q <= i < q + w ==> IsSpace(text[i]))
    && (forall i :: q + w <= i < e ==> NotNewline(text[i]))
  }

  /** Both quantifiers are greedy: the longest `\s*` first, then the longest `.+`. */
  ghost predicate Preferred(text: string, s: nat, w: nat, e: nat) {
    && Admits(text, s, w, e)
    && forall w': nat, e': nat :: Admits(text, s, w', e') ==> w' < w || (w' == w && e' <= e)
  }

  ghost predicate MatchesAt(text: string, s: nat) {
    exists w: nat, e: nat :: Admits(text, s, w, e)
  }

  /** A match: where the label starts, how much whitespace `\s*` keeps, where the name ends. */
  datatype Match = Match(at: nat, ws: nat, end: nat)

  ghost predicate IsSearchResult(text: string, m: Match) {
    && Preferred(text, m.at, m.ws, m.end)
    && forall s: nat :: s < m.at ==> !MatchesAt(text, s)
  }

  /** `match.group(1)`. */
  function Group(text: string, m: Match): string
    requires m.at + |Label| + m.ws <= m.end <= |text|
  {
    text[m.at + |Label| + m.ws..m.end]
  }

  /** The last index in `[lo, hi)` that does not hold a line feed. */
  function LastNonNewline(text: string, lo: nat, hi: nat): (r: Option<nat>)
    requires lo <= hi <= |text|
    ensures r.Some? ==> lo <= r.value < hi && NotNewline(text[r.value])
    ensures r.Some? ==> forall i :: r.value < i < hi ==> !NotNewline(text[i])
    ensures r.None? ==> forall i :: lo <= i < hi ==> !NotNewline(text[i])
    decreases hi
  {
    if hi == lo then None
    else if NotNewline(text[hi - 1]) then Some(hi - 1)
    else LastNonNewline(text, lo, hi - 1)
  }

  /**
   * Where the group starts when the label ends at `q`: right after the
   * run of whitespace if something follows it, else at the last character
   * of that run that is not a line feed.
   */
  function GroupStart(text: string, q: nat): (g: Option<nat>)
    requires q <= |text|
    ensures g.Some? ==> q <= g.value < |text| && NotNewline(text[g.value])
    ensures g.Some? ==> forall i :: q <= i < g.value ==> IsSpace(text[i])
  {
    var h := q + RunLength(text, q, IsSpace);
    if h < |text| then Some(h) else LastNonNewline(text, q, h)
  }

  /**
   * Any split the pattern admits at `s` starts its group at or before
   * GroupStart, and ends within the run of non-line-feeds when it starts
   * there.
   */
  lemma AdmitsAt(text: string, s: nat, w: nat, e: nat)
    ensures Admits(text, s, w, e) ==>
      var q := s + |Label|;
      var g := GroupStart(text, q);
      && g.Some?
      && q + w <= g.value
      && (q + w == g.value ==> e <= g.value + RunLength(text, g.value, NotNewline))
  {
    if Admits(text, s, w, e) {
      var q := s + |Label|;
      assert NotNewline(text[q + w]);
    }
  }

  /** At a label, GroupStart gives the preferred split when there is one. */
  lemma GroupStartIsPreferred(text: string, s: nat)
    requires OccursAt(Label, text, s)
    ensures var q := s + |Label|;
            match GroupStart(text, q)
            case Some(g) => Preferred(text, s, g - q, g + RunLength(text, g, NotNewline))
            case None => !MatchesAt(text, s)
  {
    var q := s + |Label|;
    match GroupStart(text, q)
    case Some(g) =>
      var e := g + RunLength(text, g, NotNewline);
      assert Admits(text, s, g - q, e);
      forall w': nat, e': nat | Admits(text, s, w', e')
        ensures w' < g - q || (w' == g - q && e' <= e)
      {
        AdmitsAt(text, s, w', e');
      }
    case None =>
      forall w': nat, e': nat
        ensures !Admits(text, s, w', e')
      {
        AdmitsAt(text, s, w', e');
      }
  }

  /** Where the label does not occur, no match starts. */
  lemma NoLabelNoMatch(text: string, from: nat, to: nat)
    requires forall j: nat :: from <= j < to ==> !OccursAt(Label, text, j)
    ensures forall s: nat :: from <= s < to ==> !MatchesAt(text, s)
  {
  }

  /** With no match before `from` and no label from there on, there is no match at all. */
  lemma NoMoreMatches(text: string, from: nat)
    requires forall t: nat :: t < from ==> !MatchesAt(text, t)
    requires forall j: nat :: from <= j ==> !OccursAt(Label, text, j)
    ensures forall t: nat :: !MatchesAt(text, t)
  {
  }

  /** Extending the stretch without a match by one more index. */
  lemma NoMatchThrough(text: string, from: nat, s: nat)
    requires from <= s
    requires forall t: nat :: t < from ==> !MatchesAt(text, t)
    requires forall j: nat :: from <= j < s ==> !OccursAt(Label, text, j)
    requires !MatchesAt(text, s)
    ensures forall t: nat :: t < s + 1 ==> !MatchesAt(text, t)
  {
    NoLabelNoMatch(text, from, s);
  }

  /** The leftmost match at or after `from`, given that there is none before it. */
  function SearchFrom(text: string, from: nat): (m: Option<Match>)
    requires forall s: nat :: s < from ==> !MatchesAt(text, s)
    ensures m.None? ==> forall s: nat :: !MatchesAt(text, s)
    ensures m.Some? ==> IsSearchResult(text, m.value)
    decreases |text| - from
  {
    match IndexFrom(Label, text, from)
    case None =>
      NoMoreMatches(text, from);
      None
    case Some(s) =>
      GroupStartIsPreferred(text, s);
      var q := s + |Label|;
      match GroupStart(text, q)
      case Some(g) =>
        NoLabelNoMatch(text, from, s);
        Some(Match(s, g - q, g + RunLength(text, g, NotNewline)))
      case None =>
        NoMatchThrough(text, from, s);
        SearchFrom(text, s + 1)
  }

  /** There is only one leftmost match with a preferred split. */
  lemma SearchResultUnique(text: string, a: Match, b: Match)
    requires IsSearchResult(text, a) && IsSearchResult(text, b)
    ensures a == b
  {
    assert MatchesAt(text, a.at) && MatchesAt(text, b.at);
  }

  /** The group of a match is a non-empty piece of one line. */
  lemma GroupShape(text: string, m: Match)
    requires Admits(text, m.at, m.ws, m.end)
    ensures var g := Group(text, m);
            |g| > 0 && '\n' !in g
  {
    var g := Group(text, m);
    var h := m.at + |Label| + m.ws;
    forall i | 0 <= i < |g|
      ensures g[i] != '\n'
    {
      assert g[i] == text[h + i];
    }
  }

  /**
   * `get_name_from_string`: the group of the leftmost match, or "Name not
   * found". Either way the result is a non-empty piece of one line.
   */
  function GetNameFromString(s: string): (r: string)
    ensures (forall i: nat :: !MatchesAt(s, i)) ==> r == NotFound
    ensures (forall i: nat :: !OccursAt(Label, s, i)) ==> r == NotFound
    ensures |r| > 0 && '\n' !in r
  {
    match SearchFrom(s, 0)
    case None => NotFound
    case Some(m) =>
      assert MatchesAt(s, m.at);
      GroupShape(s, m);
      Group(s, m)
  }

  /** Whatever match the regular expression finds, its group is what comes back. */
  lemma GetNameIs(s: string, m: Match)
    requires IsSearchResult(s, m)
    ensures m.at + |Label| + m.ws <= m.end <= |s|
    ensures GetNameFromString(s) == Group(s, m)
  {
    assert MatchesAt(s, m.at);
    SearchResultUnique(s, SearchFrom(s, 0).value, m);
  }

  /** The name runs to the end of its line. */
  lemma NameRunsToLineEnd(s: string, m: Match)
    requires IsSearchResult(s, m)
    ensures m.end == |s| || s[m.end] == '\n'
  {
    if m.end < |s| && NotNewline(s[m.end]) {
      assert Admits(s, m.at, m.ws, m.end + 1);
    }
  }

  /** The runs in the example: one space after the label, then twelve characters up to the line feed. */
  lemma ExampleRuns(s: string)
    requires s == "Name: Ada Lovelace\nRole: x"
    ensures OccursAt(Label, s, 0)
    ensures GroupStart(s, |Label|) == Some(6)
    ensures RunLength(s, 6, NotNewline) == 12
  {
    assert s[..5] == Label;
    RunLengthIs(s, 5, IsSpace, 1);
    RunLengthIs(s, 6, NotNewline, 12);
  }

  /** A name on the label's line, after a space. */
  lemma ExampleFacts(s: string)
    requires s == "Name: Ada Lovelace\nRole: x"
    ensures IsSearchResult(s, Match(0, 1, 18))
  {
    ExampleRuns(s);
    GroupStartIsPreferred(s, 0);
  }

  lemma Example(s: string)
    requires s == "Name: Ada Lovelace\nRole: x"
    ensures GetNameFromString(s) == "Ada Lovelace"
  {
    assert Group(s, Match(0, 1, 18)) == "Ada Lovelace";
    ExampleFacts(s);
    GetNameIs(s, Match(0, 1, 18));
  }

  /** With nothing but a space after the label, the engine gives the space back to `.+`. */
  lemma TrailingSpaceFacts(s: string)
    requires s == "Name: "
    ensures IsSearchResult(s, Match(0, 0, 6))
  {
    assert OccursAt(Label, s, 0);
    RunLengthIs(s, 5, IsSpace, 1);
    RunLengthIs(s, 5, NotNewline, 1);
    GroupStartIsPreferred(s, 0);
  }

  lemma TrailingSpaceIsTheName(s: string)
    requires s == "Name: "
    ensures GetNameFromString(s) == " "
  {
    assert Group(s, Match(0, 0, 6)) == " ";
    TrailingSpaceFacts(s);
    GetNameIs(s, Match(0, 0, 6));
  }

  /** A label followed only by a line feed does not match: `.+` cannot start on the line feed. */
  lemma LineFeedOnlyFacts(s: string)
    requires s == "Name:\n"
    ensures forall i: nat :: !MatchesAt(s, i)
  {
    assert OccursAt(Label, s, 0);
    RunLengthIs(s, 5, IsSpace, 1);
    GroupStartIsPreferred(s, 0);
    assert !OccursAt(Label, s, 1) by {
      assert s[1..6][0] == s[1];
    }
  }

  lemma LineFeedOnlyIsNotFound(s: string)
    requires s == "Name:\n"
    ensures GetNameFromString(s) == NotFound
  {
    LineFeedOnlyFacts(s);
  }
}
