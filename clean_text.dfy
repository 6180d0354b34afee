/**
 * `clean_text(text)` (utilisys/utilisys.py:469-475): first
 * `text.replace("\\", "")`, then `re.sub(r"\\(.*?)\\", "", text)`.
 *
 * The substitution is modelled for any input (DropEscapedSpans), so that
 * its effect after the first step can be proved rather than assumed: once
 * every backslash is gone, the pattern, which needs two of them, can no
 * longer match, and the second step changes nothing.
 */
module CleanText {
  import opened Wrappers
  import opened PyStr

  /**
   * The first index from `k` on that closes a span opened by a backslash:
   * a backslash reached before any line feed (`.` does not match one);
   * `None` exactly when a line feed comes before every later backslash.
   */
  function Closing(t: string, k: nat): (r: Option<nat>)
    ensures r.Some? ==> k <= r.value < |t| && t[r.value] == '\\'
    ensures r.Some? ==> forall i :: k <= i < r.value ==> t[i] != '\\' && t[i] != '\n'
    ensures r.None? ==> forall i :: k <= i < |t| && t[i] == '\\' ==> exists j :: k <= j < i && t[j] == '\n'
    decreases |t| - k
  {
    if k >= |t| then None
    else if t[k] == '\\' then Some(k)
    else if t[k] == '\n' then None
    else Closing(t, k + 1)
  }

  /**
   * `re.sub(r"\\(.*?)\\", "", t)`: scanning from the left, a backslash
   * that has a closing backslash later on its line is removed together
   * with that closing backslash and everything between; any other
   * character is kept.
   */
  function DropEscapedSpans(t: string): (r: string)
    ensures |r| <= |t|
    decreases |t|
  {
    if t == [] then []
    else if t[0] == '\\' then
      match Closing(t, 1)
      case Some(j) => DropEscapedSpans(t[j + 1..])
      case None => [t[0]] + DropEscapedSpans(t[1..])
    else [t[0]] + DropEscapedSpans(t[1..])
  }

  /** Without a backslash the substitution finds nothing to replace. */
  lemma {:induction false} DropEscapedSpansNoBackslash(t: string)
    requires '\\' !in t
    ensures DropEscapedSpans(t) == t
    decreases |t|
  {
    if t != [] {
      assert t[0] in t;
      assert '\\' !in t[1..];
      DropEscapedSpansNoBackslash(t[1..]);
    }
  }

  /**
   * `clean_text`: every backslash is gone, every other character is kept
   * as often as it occurred, and the substitution adds nothing to the
   * `replace`.
   */
  function Clean(t: string): (r: string)
    ensures r == RemoveChar(t, '\\')
    ensures '\\' !in r
    ensures forall c :: c != '\\' ==> multiset(r)[c] == multiset(t)[c]
  {
    var replaced := RemoveChar(t, '\\');
    RemoveCharCounts(t, '\\');
    DropEscapedSpansNoBackslash(replaced);
    DropEscapedSpans(replaced)
  }

  /** Cleaning keeps the order of what stays: it distributes over concatenation. */
  lemma CleanConcat(a: string, b: string)
    ensures Clean(a + b) == Clean(a) + Clean(b)
  {
    RemoveCharConcat(a, b, '\\');
  }

  /** Cleaning twice is cleaning once. */
  lemma CleanIdempotent(t: string)
    ensures Clean(Clean(t)) == Clean(t)
  {
    RemoveCharAbsent(Clean(t), '\\');
  }

  /** On text without backslashes, cleaning changes nothing. */
  lemma CleanNoBackslash(t: string)
    requires '\\' !in t
    ensures Clean(t) == t
  {
    RemoveCharAbsent(t, '\\');
  }

  /**
   * Applied on its own, the substitution does remove a span: a pair of
   * backslashes on one line goes together with what lies between them.
   */
  lemma DropSpanExample(t: string)
    requires t == "a\\bc\\d"
    ensures DropEscapedSpans(t) == "ad"
  {
    assert t[1..] == "\\bc\\d";
    assert DropEscapedSpans("\\bc\\d") == "d";
  }

  /** A line feed ends the span: the opening backslash then stays. */
  lemma LineFeedExample(t: string)
    requires t == "\\\n\\"
    ensures DropEscapedSpans(t) == t
  {
    assert Closing(t, 1) == None;
    assert t[1..] == "\n\\";
    assert DropEscapedSpans("\\") == "\\";
  }
}
