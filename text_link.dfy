/**
 * `extract_text_version_link(email_content)` (utilisys/utilisys.py:207-224):
 * `re.search(r"Link to the TEXT version:\s*(http://\S+)", email_content)`,
 * returning group 1 or `None`.
 *
 * The regular expression `M\s*(P\S+)`, for literals M and P, is stated on
 * its own (Admits, Preferred, IsSearchResult): the leftmost index where M
 * starts a match, and there the split the backtracking engine reaches
 * first, with `\s*` as long as possible and then `\S+` as long as
 * possible. SearchFrom computes that match with literal search and runs of
 * characters; `extract_text_version_link` instantiates M and P with Marker
 * and Scheme.
 */
module TextVersionLink {
  import opened Wrappers
  import opened PyStr

  const Marker: string := "Link to the TEXT version:"
  const Scheme: string := "http://"

  /**
   * With `marker` at `s`, `\s*` can take `w` characters and the group
   * `scheme\S+` can end at `e`.
   */
  ghost predicate Admits(marker: string, scheme: string, text: string, s: nat, w: nat, e: nat) {
    var q := s + |marker|;
    && OccursAt(marker, text, s)
    && q + w + |scheme| < e <= |text|
    && (forall i :: q <= i < q + w ==> IsSpace(text[i]))
    && OccursAt(scheme, text, q + w)
    && (forall i :: q + w + |scheme| <= i < e ==> NotSpace(text[i]))
  }

  /** Both quantifiers are greedy: the longest `\s*` first, then the longest `\S+`. */
  ghost predicate Preferred(marker: string, scheme: string, text: string, s: nat, w: nat, e: nat) {
    && Admits(marker, scheme, text, s, w, e)
    && forall w': nat, e': nat :: Admits(marker, scheme, text, s, w', e') ==> w' < w || (w' == w && e' <= e)
  }

  ghost predicate MatchesAt(marker: string, scheme: string, text: string, s: nat) {
    exists w: nat, e: nat :: Admits(marker, scheme, text, s, w, e)
  }

  /** A match: where the marker starts, how much whitespace follows, where the group ends. */
  datatype Match = Match(at: nat, ws: nat, end: nat)

  ghost predicate IsSearchResult(marker: string, scheme: string, text: string, m: Match) {
    && Preferred(marker, scheme, text, m.at, m.ws, m.end)
    && forall s: nat :: s < m.at ==> !MatchesAt(marker, scheme, text, s)
  }

  /** `match.group(1)`. */
  function Group(marker: string, text: string, m: Match): string
    requires m.at + |marker| + m.ws <= m.end <= |text|
  {
    text[m.at + |marker| + m.ws..m.end]
  }

  /**
   * When the scheme starts with a non-whitespace character, any split the
   * pattern admits at `s` takes the whole run of whitespace after the
   * marker.
   */
  lemma AdmitsWhitespace(marker: string, scheme: string, text: string, s: nat, w: nat, e: nat)
    requires |scheme| > 0 && NotSpace(scheme[0])
    requires Admits(marker, scheme, text, s, w, e)
    ensures w == RunLength(text, s + |marker|, IsSpace)
  {
    OccursAtChar(scheme, text, s + |marker| + w, 0);
    RunLengthIs(text, s + |marker|, IsSpace, w);
  }

  /** Any split the pattern admits ends within the run of non-whitespace after the scheme. */
  lemma AdmitsEnd(marker: string, scheme: string, text: string, s: nat, w: nat, e: nat)
    requires Admits(marker, scheme, text, s, w, e)
    ensures var g := s + |marker| + w + |scheme|;
            && NotSpace(text[g])
            && e <= g + RunLength(text, g, NotSpace)
  {
    var g := s + |marker| + w + |scheme|;
    RunLengthAtLeast(text, g, NotSpace, e - g);
  }

  /** Where the group ends when the marker at `s` starts a match. */
  function GroupEnd(marker: string, scheme: string, text: string, s: nat): (e: Option<nat>)
    requires s + |marker| <= |text|
  {
    var q := s + |marker|;
    var h := q + RunLength(text, q, IsSpace);
    if OccursAt(scheme, text, h) && h + |scheme| < |text| && NotSpace(text[h + |scheme|]) then
      Some(h + |scheme| + RunLength(text, h + |scheme|, NotSpace))
    else None
  }

  /** GroupEnd leaves room for the scheme and at least one more character. */
  lemma GroupEndBounds(marker: string, scheme: string, text: string, s: nat)
    requires OccursAt(marker, text, s)
    requires GroupEnd(marker, scheme, text, s).Some?
    ensures var q := s + |marker|;
            var w := RunLength(text, q, IsSpace);
            var e := GroupEnd(marker, scheme, text, s).value;
            q + w + |scheme| < e <= |text|
  {
    var h := s + |marker| + RunLength(text, s + |marker|, IsSpace);
    RunLengthAtLeast(text, h + |scheme|, NotSpace, 1);
  }

  /** GroupEnd puts the scheme right after the run of whitespace. */
  lemma GroupEndScheme(marker: string, scheme: string, text: string, s: nat)
    requires OccursAt(marker, text, s)
    requires GroupEnd(marker, scheme, text, s).Some?
    ensures var q := s + |marker|;
            var w := RunLength(text, q, IsSpace);
            var e := GroupEnd(marker, scheme, text, s).value;
            OccursAt(scheme, text, q + w)
  {
  }

  /** After the scheme, GroupEnd spans only non-whitespace. */
  lemma GroupEndToken(marker: string, scheme: string, text: string, s: nat)
    requires OccursAt(marker, text, s)
    requires GroupEnd(marker, scheme, text, s).Some?
    ensures var q := s + |marker|;
            var w := RunLength(text, q, IsSpace);
            var e := GroupEnd(marker, scheme, text, s).value;
            forall i :: q + w + |scheme| <= i < e ==> NotSpace(text[i])
  {
  }

  /** When GroupEnd finds an end, the pattern admits that split. */
  lemma GroupEndAdmits(marker: string, scheme: string, text: string, s: nat)
    requires OccursAt(marker, text, s)
    requires GroupEnd(marker, scheme, text, s).Some?
    ensures Admits(marker, scheme, text, s, RunLength(text, s + |marker|, IsSpace), GroupEnd(marker, scheme, text, s).value)
  {
    GroupEndBounds(marker, scheme, text, s);
    GroupEndScheme(marker, scheme, text, s);
    GroupEndToken(marker, scheme, text, s);
  }

  /** When GroupEnd finds an end, the split it describes is the preferred one. */
  lemma GroupEndSome(marker: string, scheme: string, text: string, s: nat)
    requires |scheme| > 0 && NotSpace(scheme[0])
    requires OccursAt(marker, text, s)
    requires GroupEnd(marker, scheme, text, s).Some?
    ensures Preferred(marker, scheme, text, s, RunLength(text, s + |marker|, IsSpace), GroupEnd(marker, scheme, text, s).value)
  {
    var w := RunLength(text, s + |marker|, IsSpace);
    var e := GroupEnd(marker, scheme, text, s).value;
    GroupEndAdmits(marker, scheme, text, s);
    forall w': nat, e': nat | Admits(marker, scheme, text, s, w', e')
      ensures w' < w || (w' == w && e' <= e)
    {
      AdmitsWhitespace(marker, scheme, text, s, w', e');
      AdmitsEnd(marker, scheme, text, s, w', e');
    }
  }

  /** Wherever the pattern admits a split at `s`, GroupEnd finds an end. */
  lemma AdmitsGroupEnd(marker: string, scheme: string, text: string, s: nat, w: nat, e: nat)
    requires |scheme| > 0 && NotSpace(scheme[0])
    requires Admits(marker, scheme, text, s, w, e)
    ensures GroupEnd(marker, scheme, text, s).Some?
  {
    AdmitsWhitespace(marker, scheme, text, s, w, e);
    var g := s + |marker| + w + |scheme|;
    assert g < |text| && NotSpace(text[g]);
  }

  /** When GroupEnd finds none, the marker at `s` starts no match. */
  lemma GroupEndNone(marker: string, scheme: string, text: string, s: nat)
    requires |scheme| > 0 && NotSpace(scheme[0])
    requires OccursAt(marker, text, s)
    requires GroupEnd(marker, scheme, text, s).None?
    ensures !MatchesAt(marker, scheme, text, s)
  {
    if MatchesAt(marker, scheme, text, s) {
      var w: nat, e: nat :| Admits(marker, scheme, text, s, w, e);
      AdmitsGroupEnd(marker, scheme, text, s, w, e);
    }
  }

  /** At a marker, GroupEnd finds the preferred split when there is one. */
  lemma GroupEndIsPreferred(marker: string, scheme: string, text: string, s: nat)
    requires |scheme| > 0 && NotSpace(scheme[0])
    requires OccursAt(marker, text, s)
    ensures var q := s + |marker|;
            var w := RunLength(text, q, IsSpace);
            match GroupEnd(marker, scheme, text, s)
            case Some(e) => Preferred(marker, scheme, text, s, w, e)
            case None => !MatchesAt(marker, scheme, text, s)
  {
    if GroupEnd(marker, scheme, text, s).Some? {
      GroupEndSome(marker, scheme, text, s);
    } else {
      GroupEndNone(marker, scheme, text, s);
    }
  }

  /** Where the marker does not occur, no match starts. */
  lemma NoMarkerNoMatch(marker: string, scheme: string, text: string, from: nat, to: nat)
    requires forall j: nat :: from <= j < to ==> !OccursAt(marker, text, j)
    ensures forall s: nat :: from <= s < to ==> !MatchesAt(marker, scheme, text, s)
  {
  }

  /** Extending the stretch without a match by one more index. */
  lemma NoMatchThrough(marker: string, scheme: string, text: string, from: nat, s: nat)
    requires from <= s
    requires forall t: nat :: t < from ==> !MatchesAt(marker, scheme, text, t)
    requires forall j: nat :: from <= j < s ==> !OccursAt(marker, text, j)
    requires !MatchesAt(marker, scheme, text, s)
    ensures forall t: nat :: t < s + 1 ==> !MatchesAt(marker, scheme, text, t)
  {
    NoMarkerNoMatch(marker, scheme, text, from, s);
  }

  /** The leftmost match at or after `from`, given that there is none before it. */
  function SearchFrom(marker: string, scheme: string, text: string, from: nat): (m: Option<Match>)
    requires |scheme| > 0 && NotSpace(scheme[0])
    requires forall s: nat :: s < from ==> !MatchesAt(marker, scheme, text, s)
    ensures m.None? ==> forall s: nat :: !MatchesAt(marker, scheme, text, s)
    ensures m.Some? ==> IsSearchResult(marker, scheme, text, m.value)
    decreases |text| - from
  {
    match IndexFrom(marker, text, from)
    case None =>
      NoMoreMatches(marker, scheme, text, from);
      None
    case Some(s) =>
      match GroupEnd(marker, scheme, text, s)
      case Some(e) =>
        GroupEndSome(marker, scheme, text, s);
        NoMarkerNoMatch(marker, scheme, text, from, s);
        Some(Match(s, RunLength(text, s + |marker|, IsSpace), e))
      case None =>
        GroupEndNone(marker, scheme, text, s);
        NoMatchThrough(marker, scheme, text, from, s);
        if s < |text| then SearchFrom(marker, scheme, text, s + 1)
        else
          NoMoreMatches(marker, scheme, text, s + 1);
          None
  }

  /** With no match before `from` and no marker from there on, there is no match at all. */
  lemma NoMoreMatches(marker: string, scheme: string, text: string, from: nat)
    requires forall t: nat :: t < from ==> !MatchesAt(marker, scheme, text, t)
    requires forall j: nat :: from <= j ==> !OccursAt(marker, text, j)
    ensures forall t: nat :: !MatchesAt(marker, scheme, text, t)
  {
  }

  /** There is only one leftmost match with a preferred split. */
  lemma SearchResultUnique(marker: string, scheme: string, text: string, a: Match, b: Match)
    requires IsSearchResult(marker, scheme, text, a) && IsSearchResult(marker, scheme, text, b)
    ensures a == b
  {
    assert MatchesAt(marker, scheme, text, a.at) && MatchesAt(marker, scheme, text, b.at);
  }

  /** The group of a match is the scheme followed by at least one non-whitespace character. */
  lemma GroupShape(marker: string, scheme: string, text: string, m: Match)
    requires Admits(marker, scheme, text, m.at, m.ws, m.end)
    ensures var g := Group(marker, text, m);
            && |g| > |scheme| && g[..|scheme|] == scheme
            && forall i :: |scheme| <= i < |g| ==> NotSpace(g[i])
  {
    var g := Group(marker, text, m);
    var h := m.at + |marker| + m.ws;
    assert g[..|scheme|] == text[h..h + |scheme|];
    forall i | |scheme| <= i < |g|
      ensures NotSpace(g[i])
    {
      assert g[i] == text[h + i];
    }
  }

  /** The group of the leftmost match of `M\s*(P\S+)`, if any. */
  function Search(marker: string, scheme: string, text: string): (r: Option<string>)
    requires |scheme| > 0 && NotSpace(scheme[0])
    ensures r.None? <==> forall s: nat :: !MatchesAt(marker, scheme, text, s)
    ensures r.Some? ==> |r.value| > |scheme| && r.value[..|scheme|] == scheme
    ensures r.Some? ==> forall i :: |scheme| <= i < |r.value| ==> NotSpace(r.value[i])
  {
    match SearchFrom(marker, scheme, text, 0)
    case None => None
    case Some(m) =>
      assert MatchesAt(marker, scheme, text, m.at);
      GroupShape(marker, scheme, text, m);
      Some(Group(marker, text, m))
  }

  /** Whatever match the regular expression finds, its group is what `Search` returns. */
  lemma SearchIs(marker: string, scheme: string, text: string, m: Match)
    requires |scheme| > 0 && NotSpace(scheme[0])
    requires IsSearchResult(marker, scheme, text, m)
    ensures m.at + |marker| + m.ws <= m.end <= |text|
    ensures Search(marker, scheme, text) == Some(Group(marker, text, m))
  {
    assert MatchesAt(marker, scheme, text, m.at);
    SearchResultUnique(marker, scheme, text, SearchFrom(marker, scheme, text, 0).value, m);
  }

  /** The group is a whole token: it ends at whitespace or at the end of the text. */
  lemma GroupEndsAtSpace(marker: string, scheme: string, text: string, m: Match)
    requires IsSearchResult(marker, scheme, text, m)
    ensures m.end == |text| || IsSpace(text[m.end])
  {
    if m.end < |text| && NotSpace(text[m.end]) {
      assert Admits(marker, scheme, text, m.at, m.ws, m.end + 1);
    }
  }

  /** The group starts right after the marker and all the whitespace that follows it. */
  lemma GroupAfterWhitespace(marker: string, scheme: string, text: string, m: Match)
    requires |scheme| > 0 && NotSpace(scheme[0])
    requires IsSearchResult(marker, scheme, text, m)
    ensures var q := m.at + |marker|;
            && AllSpace(text[q..q + m.ws])
            && NotSpace(text[q + m.ws])
  {
    var q := m.at + |marker|;
    OccursAtChar(scheme, text, q + m.ws, 0);
  }

  lemma SchemeFacts()
    ensures |Scheme| == 7 && NotSpace(Scheme[0])
    ensures forall i :: 0 <= i < |Scheme| ==> NotSpace(Scheme[i])
  {
  }

  /**
   * `extract_text_version_link`: the link after the leftmost marker that
   * is followed by optional whitespace and "http://" with at least one
   * more character, or `None`. A link has no whitespace in it.
   */
  function ExtractTextVersionLink(email: string): (r: Option<string>)
    ensures r.None? <==> forall s: nat :: !MatchesAt(Marker, Scheme, email, s)
    ensures (forall s: nat :: !OccursAt(Marker, email, s)) ==> r.None?
    ensures r.Some? ==> |r.value| > |Scheme| && r.value[..|Scheme|] == Scheme
    ensures r.Some? ==> forall i :: 0 <= i < |r.value| ==> NotSpace(r.value[i])
  {
    SchemeFacts();
    var r := Search(Marker, Scheme, email);
    if r.Some? then
      assert forall i :: 0 <= i < |Scheme| ==> r.value[i] == Scheme[i];
      r
    else r
  }

  /** The runs in the example: one space after the marker, then the scheme and five more characters. */
  lemma ExampleRuns(email: string)
    requires email == "Link to the TEXT version: http://a.b/c\nBye"
    ensures OccursAt(Marker, email, 0)
    ensures RunLength(email, |Marker|, IsSpace) == 1
    ensures GroupEnd(Marker, Scheme, email, 0) == Some(38)
  {
    assert email[..25] == Marker;
    RunLengthIs(email, 25, IsSpace, 1);
    assert email[26..33] == Scheme;
    RunLengthIs(email, 33, NotSpace, 5);
  }

  /** A link on its own line after the marker. */
  lemma ExampleFacts(email: string)
    requires email == "Link to the TEXT version: http://a.b/c\nBye"
    ensures IsSearchResult(Marker, Scheme, email, Match(0, 1, 38))
  {
    SchemeFacts();
    ExampleRuns(email);
    GroupEndSome(Marker, Scheme, email, 0);
  }

  /** `extract_text_version_link` returns the group of the match the regular expression finds. */
  lemma ExtractIs(email: string, m: Match)
    requires IsSearchResult(Marker, Scheme, email, m)
    ensures m.at + |Marker| + m.ws <= m.end <= |email|
    ensures ExtractTextVersionLink(email) == Some(Group(Marker, email, m))
  {
    SchemeFacts();
    SearchIs(Marker, Scheme, email, m);
  }

  lemma Example(email: string)
    requires email == "Link to the TEXT version: http://a.b/c\nBye"
    ensures ExtractTextVersionLink(email) == Some("http://a.b/c")
  {
    ExampleFacts(email);
    ExtractIs(email, Match(0, 1, 38));
    ExampleGroup(email);
  }

  lemma ExampleGroup(email: string)
    requires email == "Link to the TEXT version: http://a.b/c\nBye"
    ensures Group(Marker, email, Match(0, 1, 38)) == "http://a.b/c"
  {
    assert email[26..38] == "http://a.b/c";
  }
}
