/**
 * `generate_values_dict_from_content(content)` (utilisys/utilisys.py:564-583).
 *
 * The content is split on line feeds; every line that contains a "-"
 * anywhere yields the key `line.strip().lstrip("-").strip()`, stored with
 * the value "Placeholder for " followed by the key. A later line with the
 * same key assigns the same value again, so the key keeps its first
 * position.
 */
module Placeholders {
  import opened Wrappers
  import opened PyStr
  import opened Dicts

  const Prefix: string := "Placeholder for "

  /** `line.strip().lstrip("-").strip()`. */
  function BulletKey(line: string): string {
    Strip(LStripChar(Strip(line), '-'))
  }

  /** `f"Placeholder for {key}"`. */
  function Placeholder(key: string): string {
    Prefix + key
  }

  /**
   * The assignments the loop makes for `lines`, in order, when a line
   * yields the key `key(line)`; the source's key is `BulletKey`.
   */
  function Entries(lines: seq<string>, key: string -> string): (es: seq<(string, string)>)
    ensures forall p :: p in es ==> p.1 == Placeholder(p.0)
    decreases |lines|
  {
    if lines == [] then []
    else
      var line := lines[|lines| - 1];
      var front := Entries(lines[..|lines| - 1], key);
      if '-' in line then front + [(key(line), Placeholder(key(line)))] else front
  }

  /** The loop of the source: one assignment per line that contains a "-". */
  method GenerateValuesDict(content: string) returns (values: seq<(string, string)>)
    ensures values == FromItems(Entries(Split(content, '\n'), BulletKey))
  {
    var lines := Split(content, '\n');
    values := [];
    var i := 0;
    while i < |lines|
      invariant 0 <= i <= |lines|
      invariant values == FromItems(Entries(lines[..i], BulletKey))
    {
      var line := lines[i];
      assert lines[..i + 1][..i] == lines[..i];
      if '-' in line {
        var key := BulletKey(line);
        UpdateSnoc([], Entries(lines[..i], BulletKey), (key, Placeholder(key)));
        values := Set(values, key, Placeholder(key));
      }
      i := i + 1;
    }
    assert lines[..i] == lines;
  }

  /** The line at `i` contains a "-" and yields the key `k`. */
  predicate KeyLine(lines: seq<string>, i: int, k: string, key: string -> string) {
    0 <= i < |lines| && '-' in lines[i] && key(lines[i]) == k
  }

  /** A key is stored exactly when some line contains a "-" and yields it. */
  lemma {:induction false} EntriesKeys(lines: seq<string>, key: string -> string, k: string)
    ensures k in Keys(Entries(lines, key)) <==> exists i :: KeyLine(lines, i, k, key)
    decreases |lines|
  {
    if lines != [] {
      var n := |lines| - 1;
      var init := lines[..n];
      var line := lines[n];
      EntriesKeys(init, key, k);
      if k in Keys(Entries(init, key)) {
        var i :| KeyLine(init, i, k, key);
        assert init[i] == lines[i];
        assert KeyLine(lines, i, k, key);
      }
      if '-' in line {
        assert Entries(lines, key) == Entries(init, key) + [(key(line), Placeholder(key(line)))];
        KeysSnoc(Entries(init, key), (key(line), Placeholder(key(line))));
        if key(line) == k {
          assert KeyLine(lines, n, k, key);
        }
      } else {
        assert Entries(lines, key) == Entries(init, key);
      }
      if exists i :: KeyLine(lines, i, k, key) {
        var i :| KeyLine(lines, i, k, key);
        if i < n {
          assert init[i] == lines[i];
          assert KeyLine(init, i, k, key);
        }
      }
    }
  }

  /**
   * The dict has each key once; its keys are the keys of the lines that
   * contain a "-", and each value is the placeholder for its key.
   */
  lemma ValuesDict(lines: seq<string>, key: string -> string)
    ensures var values := FromItems(Entries(lines, key));
            && Distinct(Keys(values))
            && (forall p :: p in values ==> p.1 == Placeholder(p.0))
            && (forall k :: k in Keys(values) <==> exists i :: KeyLine(lines, i, k, key))
  {
    FromItemsSpec(Entries(lines, key));
    FromItemsEntries(Entries(lines, key));
    forall k
      ensures k in Keys(FromItems(Entries(lines, key))) <==> exists i :: KeyLine(lines, i, k, key)
    {
      EntriesKeys(lines, key, k);
    }
  }

  /** Every stored key is stripped of whitespace at both ends. */
  lemma StoredKeysStripped(lines: seq<string>)
    ensures forall k :: k in Keys(FromItems(Entries(lines, BulletKey))) ==> NoEdgeSpace(k)
  {
    FromItemsEntries(Entries(lines, BulletKey));
    forall k | k in Keys(FromItems(Entries(lines, BulletKey)))
      ensures NoEdgeSpace(k)
    {
      EntriesKeys(lines, BulletKey, k);
      var i :| KeyLine(lines, i, k, BulletKey);
    }
  }

  /**
   * For a line already stripped, the key is what follows its leading
   * dashes, stripped again.
   */
  lemma KeyAfterDashes(line: string, n: nat)
    requires NoEdgeSpace(line) && n <= |line|
    requires forall i :: 0 <= i < n ==> line[i] == '-'
    requires n == |line| || line[n] != '-'
    ensures BulletKey(line) == Strip(line[n..])
  {
    StripNoEdge(line);
    LStripCharIs(line, '-', n);
  }

  lemma DashSpaceFacts(line: string, w: string, k: string)
    requires line == "- -x" && w == " " && k == "-x"
    ensures NoEdgeSpace(line) && 1 <= |line| && line[0] == '-' && line[1] != '-'
    ensures line[1..] == w + k && AllSpace(w) && NoEdgeSpace(k)
  {
  }

  /** Only leading dashes are removed, and then the whitespace after them: "- -x" gives "-x". */
  lemma DashAfterSpaceIsKept(line: string)
    requires line == "- -x"
    ensures BulletKey(line) == "-x"
  {
    var w, k := " ", "-x";
    DashSpaceFacts(line, w, k);
    KeyAfterDashes(line, 1);
    StripSpaceFirst(w, k);
    StripNoEdge(k);
  }

  lemma WellKnownFacts(line: string)
    requires line == "well-known"
    ensures '-' in line && NoEdgeSpace(line) && 0 < |line| && line[0] != '-'
  {
    assert line[4] == '-';
  }

  /** A "-" inside a word also marks a line: "well-known" is a key of its own. */
  lemma InnerDashMarksLine(line: string)
    requires line == "well-known"
    ensures '-' in line && BulletKey(line) == "well-known"
  {
    WellKnownFacts(line);
    KeyAfterDashes(line, 0);
    assert line[0..] == line;
    StripNoEdge(line);
  }
}
