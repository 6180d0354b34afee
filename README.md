# utilisys helpers in Dafny

This project models the pure and data-shaping helpers of `utilisys/utilisys.py` and proves what they compute:

- `find_text`: delimiter-based extraction with an optional right delimiter and an optional bound on the number of characters.
- `flatten_dict`: flattens nested dicts.
- `find_closest_match`: fuzzy matching of a position name.
- `create_work_experience_dict`: builds a dict from parsed résumé JSON.
- `extract_text_version_link` and `get_name_from_string`: two regular-expression lookups.
- `clean_text`: removes backslashes.
- `generate_values_dict_from_content`: builds a dict of placeholders.

## How the model is built

**Python values.** Python `str` values are Dafny strings, i.e. sequences of code points. The module `PyStr` models:

- `isspace`
- `strip`, `lstrip(c)`
- `replace(c, "")`
- `split(sep)` and `join`

**Dicts.** A Python `dict` is the sequence its `items()` would return (module `Dicts`):

- `d[k] = v` keeps an existing key in place and appends a new one.
- `dict(items)` performs those assignments from left to right.

So a key stays where it first appeared and holds the value it got last.

**Parsed JSON.** `JsonValue.Value` models the kinds of values parsed JSON can contain. Subscripting raises `KeyError` or `TypeError`, and these are modelled as a `Result`.

**Regular expressions.** Each regular-expression helper is specified independently of any matching algorithm, as `re.search` behaves:

- the match starts at the leftmost index where the whole pattern can succeed;
- at that index, a greedy quantifier takes the longest run that lets the rest succeed, and a lazy quantifier takes the shortest.

A function that searches one index after another is proved to return exactly that match.

**Imperative helpers.** `flatten_dict`, `find_closest_match`, `create_work_experience_dict` and `generate_values_dict_from_content` each loop over a collection. Each is modelled as a Dafny `method` with that loop, proved against a specification function.

**Parameters.** Three library calls the model cannot see become function parameters:

- `str()`
- `fuzz.ratio`
- `str.lower`

**When `find_text` returns None.** Its docstring says it returns None "if the delimiters are not found" (utilisys/utilisys.py:333). The code makes this precise: it returns None whenever the chosen pattern matches nowhere. With a right delimiter, that includes a left delimiter that no right delimiter follows. With a bound as well, it includes a right delimiter that does not follow within that many characters. See `FindText.UntilNoneIffNoPair` and `FindText.UntilWithinSkipsToLaterLeft`.

## Model

| member | source | states |
|---|---|---|
| FindText.SearchRest | utilisys/utilisys.py:349-352 | for `left(.*)` under DOTALL: absent exactly when no match exists, else the leftmost match with the longest group |
| FindText.SearchUpTo | utilisys/utilisys.py:346-352 | for `left(.{0,n})`: absent exactly when no match exists, else the leftmost match with the longest group of at most n |
| FindText.SearchUntil | utilisys/utilisys.py:343-352 | for `left(.*?)(?=right)`: absent exactly when no match exists, else the leftmost match with the shortest group followed by `right` |
| FindText.SearchUntilWithin | utilisys/utilisys.py:341-352 | for `left(.{0,n}?)(?=right)`: absent exactly when no match exists, else the leftmost match with the shortest group of at most n followed by `right` |
| FindText.Search | utilisys/utilisys.py:352 | the search under each of the four patterns is `re.search`'s result: none exactly when nothing matches, otherwise the leftmost, preferred match |
| FindText.SearchResultUnique | utilisys/utilisys.py:352 | the search result is determined: two leftmost preferred matches are equal |
| FindText.SearchIs | utilisys/utilisys.py:352 | any span meeting the search specification is what the search returns |
| FindText.Find | utilisys/utilisys.py:352-357 | the result is absent exactly when the pattern matches nowhere; a result has no edge whitespace |
| FindText.FindBounded | utilisys/utilisys.py:341-347 | under a bounded pattern the stripped result has at most `max_chars` characters |
| FindText.FindText | utilisys/utilisys.py:325-357 | `find_text` once its pattern compiles: None exactly when the chosen pattern matches nowhere; a result is stripped and, with `max_chars`, no longer than it |
| FindText.FindTextOrRaise | utilisys/utilisys.py:341-352 | `OverflowError` exactly when `max_chars` is 4294967295 or more, the repeat bound CPython's `re` refuses; otherwise None exactly when the pattern matches nowhere, and a stripped result no longer than `max_chars` |
| FindText.FindIs | utilisys/utilisys.py:352-355 | for a search result, the return value is the stripped group 1 |
| FindText.FindRestIs | utilisys/utilisys.py:348-355 | no right delimiter and no bound: the stripped group of the `.*` match |
| FindText.FindUpToIs | utilisys/utilisys.py:346-355 | no right delimiter, a bound: the stripped group of the `.{0,n}` match |
| FindText.FindUntilIs | utilisys/utilisys.py:343-355 | a right delimiter, no bound: the stripped group of the `.*?` match |
| FindText.FindUntilWithinIs | utilisys/utilisys.py:341-355 | both: the stripped group of the `.{0,n}?` match |
| FindText.EmptyRightIsAbsent | utilisys/utilisys.py:337-340 | an empty right delimiter gives exactly the result of no right delimiter |
| FindText.NoRightNoneIffAbsent | utilisys/utilisys.py:345-357 | without a right delimiter, None exactly when the left delimiter does not occur |
| FindText.RestResult | utilisys/utilisys.py:348-352 | the `.*` match starts at the first occurrence of the left delimiter and runs to the end of the text |
| FindText.RestAfterFirstLeft | utilisys/utilisys.py:348-355 | without a right delimiter or a bound, the result is everything after the first left delimiter, stripped |
| FindText.UpToResult | utilisys/utilisys.py:346-352 | the `.{0,n}` match starts at the first left delimiter and takes n characters or up to the end |
| FindText.UpToAfterFirstLeft | utilisys/utilisys.py:346-355 | with a bound and no right delimiter, the result is the next n characters after the first left delimiter, stripped, and at most n long |
| FindText.UntilResult | utilisys/utilisys.py:343-352 | the `.*?` match is the first left delimiter and the first right delimiter after it |
| FindText.UntilBetween | utilisys/utilisys.py:343-355 | with a right delimiter and no bound, the result is the stripped text between the first left delimiter and the next right delimiter |
| FindText.UntilNoneIffNoPair | utilisys/utilisys.py:343-357 | with a right delimiter and no bound, None exactly when no right delimiter starts at or after the end of any left delimiter |
| FindText.NoMatchIffNoPair | utilisys/utilisys.py:343-352 | `left(.*?)(?=right)` matches nowhere exactly when no right delimiter starts at or after the end of a left delimiter |
| FindText.UntilWithinBounded | utilisys/utilisys.py:341-355 | with both, a result comes from a match whose group is at most n long and is followed by the right delimiter |
| FindText.BracketsWithinResult | utilisys/utilisys.py:341-352 | in `[ab[c]` with `]` and bound 1, the match starts at the second `[` |
| FindText.BracketsUntilResult | utilisys/utilisys.py:343-352 | in `[ab[c]` with `]` and no bound, the match starts at the first `[` |
| FindText.UntilWithinSkipsToLaterLeft | utilisys/utilisys.py:341-357 | `find_text("[ab[c]", "[", "]", 1)` is `"c"`: a later left delimiter is used when the first has no right delimiter within the bound |
| FindText.UntilUsesFirstLeft | utilisys/utilisys.py:343-357 | `find_text("[ab[c]", "[", "]")` is `"ab[c"` |
| FindText.ExampleBetweenTags | utilisys/utilisys.py:343-357 | `find_text("AAA<B>123</B>CCC", "<B>", "</B>")` is `"123"` |
| FindText.ExampleAfterPrefix | utilisys/utilisys.py:348-357 | `find_text("prefix: hello world", "prefix: ")` is `"hello world"` |
| FindText.ExampleMaxChars | utilisys/utilisys.py:346-357 | `find_text("X=abcdefgh;", "X=", max_chars=4)` is `"abcd"` |
| FindText.ExampleNoMarker | utilisys/utilisys.py:348-357 | `find_text("no marker here", "<B>")` is None |
| FindText.ExampleTrimmed | utilisys/utilisys.py:343-357 | `find_text("A:   padded text   \nB", "A:", "B")` is `"padded text"` |
| FindText.StripPadded | utilisys/utilisys.py:355 | `strip()` of whitespace, a core without edge whitespace, and whitespace is that core |
| Flatten.FlattenDict | utilisys/utilisys.py:96-117 | `flatten_dict`: each key once, and under every key the value of the last leaf with that key, nested dicts expanded under joined keys and lists joined |
| Flatten.FlattenEntry | utilisys/utilisys.py:110-116 | one entry contributes the items of its flattened dict, one joined list, or itself, under the new key |
| Flatten.FlattenResult | utilisys/utilisys.py:117 | `dict(items)` of the collected pairs has distinct keys and the last value of every leaf key |
| Flatten.FlattenStep | utilisys/utilisys.py:109-116 | appending one entry's pairs extends the leaves by that entry, under later-wins lookup |
| Flatten.FlatHasNoContainers | utilisys/utilisys.py:111-116 | no value of the result is a dict or a list |
| Flatten.LeavesAreFlat | utilisys/utilisys.py:111-116 | no leaf holds a dict or a list |
| Flatten.LeavesUnder | utilisys/utilisys.py:110-112 | under a non-empty parent key, every flattened key starts with the parent key and the separator |
| Flatten.EntryLeavesUnder | utilisys/utilisys.py:110-112 | every key an entry contributes starts with its own new key |
| Flatten.LeavesConcat | utilisys/utilisys.py:109-116 | the leaves of `a + b` are those of `a` followed by those of `b` |
| Flatten.EmptyNestedDict | utilisys/utilisys.py:111-112 | an entry holding an empty dict contributes nothing |
| Flatten.LastEntryWins | utilisys/utilisys.py:116-117 | a last non-dict entry decides its key, whatever earlier entries gave it |
| Flatten.ListIsJoined | utilisys/utilisys.py:113-114 | `["x", 2]` becomes the string `"x, 2"` |
| Flatten.NestedKeyCollision | utilisys/utilisys.py:110-117 | `{"a_b": 2, "a": {"b": 1}}` yields the leaves `a_b: 2` then `a_b: 1`, so the nested value wins |
| ClosestMatch.FindClosestMatch | utilisys/utilisys.py:160-174 | None exactly when every score is at most 0 (an empty list included); otherwise the first position whose score is positive and maximal |
| ClosestMatch.FirstBestUnique | utilisys/utilisys.py:169-172 | the first best index is unique, so the result is determined by the scores |
| ClosestMatch.TieGoesToFirst | utilisys/utilisys.py:171 | with scores 50, 80, 80 the strict comparison selects the second position, not the third |
| JsonValue.GetItem | utilisys/utilisys.py:179-184 | a subscript succeeds exactly on a dict holding the key, and then returns the value of the first entry with that key; it raises `KeyError` on a dict without the key and `TypeError` on anything else |
| WorkExperience.Record | utilisys/utilisys.py:180-185 | one turn succeeds exactly when all four lookups succeed and the company can be a key; otherwise the first exception in evaluation order |
| WorkExperience.DisplayEntries | utilisys/utilisys.py:181-185 | the stored record has the keys duration_months, experience and accomplishments, in order, each holding its looked-up value |
| WorkExperience.Collect | utilisys/utilisys.py:179-185 | the loop's pairs succeed exactly when every turn succeeds, and then hold every turn's pair in order |
| WorkExperience.CollectFailure | utilisys/utilisys.py:179-185 | a failure is that of the first failing turn, all earlier turns having succeeded |
| WorkExperience.CollectPrefixFailure | utilisys/utilisys.py:179-185 | a failure in the first n turns ends the loop with that failure |
| WorkExperience.CreateWorkExperience | utilisys/utilisys.py:176-187 | a failing `detailexp["work"]` is the call's exception |
| WorkExperience.CreateWorkExperienceDict | utilisys/utilisys.py:176-187 | the loop returns `dict` of the pairs of all turns, or the first exception |
| WorkExperience.StepPrefix | utilisys/utilisys.py:179-185 | one more turn extends the pairs by its pair or fails with its exception |
| WorkExperience.LaterWorkWins | utilisys/utilisys.py:181 | a company holds the record of the last work naming it |
| WorkExperience.StoredEntries | utilisys/utilisys.py:177-187 | one turn per work; each company is stored once; stored entries come from the turns |
| WorkExperience.StoredRecord | utilisys/utilisys.py:180-185 | a stored pair is the work's company and the dict of its three looked-up fields |
| WorkExperience.FirstWorkNotADict | utilisys/utilisys.py:180 | a list whose first work is not a dict raises `TypeError` |
| WorkExperience.NoWorks | utilisys/utilisys.py:177-187 | an empty list of works gives an empty dict |
| TextVersionLink.Search | utilisys/utilisys.py:218-219 | for `marker\s*(scheme\S+)`: none exactly when nothing matches; a group starts with the scheme, is longer, and has no whitespace after it |
| TextVersionLink.SearchIs | utilisys/utilisys.py:218-222 | the leftmost preferred match's group is what the search returns |
| TextVersionLink.SearchResultUnique | utilisys/utilisys.py:219 | two leftmost preferred matches are equal |
| TextVersionLink.GroupEndIsPreferred | utilisys/utilisys.py:218-219 | at a marker, the end found by `\s*` taken whole and then the longest `\S+` is the preferred match, and none exists when that fails |
| TextVersionLink.GroupShape | utilisys/utilisys.py:218 | the group begins with `http://` and continues with non-whitespace |
| TextVersionLink.GroupEndsAtSpace | utilisys/utilisys.py:218 | the link ends at whitespace or at the end of the email |
| TextVersionLink.GroupAfterWhitespace | utilisys/utilisys.py:218 | everything between the marker and the link is whitespace and the link starts right after it |
| TextVersionLink.ExtractTextVersionLink | utilisys/utilisys.py:207-224 | None exactly when the pattern matches nowhere, in particular when the marker does not occur; a link starts with `http://`, is longer than 7 and contains no whitespace |
| TextVersionLink.ExtractIs | utilisys/utilisys.py:219-222 | the search result's group is the returned link |
| TextVersionLink.Example | utilisys/utilisys.py:207-224 | `"Link to the TEXT version: http://a.b/c\nBye"` gives `"http://a.b/c"` |
| NameField.GroupStartIsPreferred | utilisys/utilisys.py:480-483 | at a label, `.+` starting at the first non-whitespace short of a line feed and running to the line end is the preferred match, and none exists without it |
| NameField.SearchResultUnique | utilisys/utilisys.py:483 | two leftmost preferred matches are equal |
| NameField.GroupShape | utilisys/utilisys.py:480 | a group is non-empty and has no line feed |
| NameField.GetNameFromString | utilisys/utilisys.py:478-489 | "Name not found" when nothing matches, in particular when the label is absent; always non-empty and without a line feed |
| NameField.GetNameIs | utilisys/utilisys.py:483-487 | the leftmost preferred match's group is the returned name |
| NameField.NameRunsToLineEnd | utilisys/utilisys.py:480 | the name runs to a line feed or to the end of the string |
| NameField.Example | utilisys/utilisys.py:478-489 | `"Name: Ada Lovelace\nRole: x"` gives `"Ada Lovelace"` |
| NameField.TrailingSpaceIsTheName | utilisys/utilisys.py:480-487 | `"Name: "` gives `" "`: `\s*` gives the space back so that `.+` can match |
| NameField.LineFeedOnlyIsNotFound | utilisys/utilisys.py:480-489 | `"Name:\n"` gives "Name not found" |
| CleanText.Closing | utilisys/utilisys.py:474 | the closing backslash of a span is the first one later on the same line; there is none exactly when a line feed comes before every later backslash |
| CleanText.DropEscapedSpans | utilisys/utilisys.py:474 | the substitution never lengthens the text |
| CleanText.DropEscapedSpansNoBackslash | utilisys/utilisys.py:474 | without a backslash the substitution changes nothing |
| CleanText.Clean | utilisys/utilisys.py:469-475 | `clean_text` removes every backslash and keeps every other character with its multiplicity |
| CleanText.CleanConcat | utilisys/utilisys.py:469-475 | cleaning distributes over concatenation, so the order of the kept characters is preserved |
| CleanText.CleanIdempotent | utilisys/utilisys.py:469-475 | cleaning twice is cleaning once |
| CleanText.CleanNoBackslash | utilisys/utilisys.py:469-475 | text without a backslash is unchanged |
| CleanText.DropSpanExample | utilisys/utilisys.py:474 | on `a\bc\d` the substitution alone gives `ad` |
| CleanText.LineFeedExample | utilisys/utilisys.py:474 | a span does not cross a line feed |
| Placeholders.Entries | utilisys/utilisys.py:577-581 | every assignment stores the placeholder for its key |
| Placeholders.GenerateValuesDict | utilisys/utilisys.py:564-583 | the loop returns `dict` of the assignments made for the lines of the content that contain "-" |
| Placeholders.EntriesKeys | utilisys/utilisys.py:577-581 | a key is assigned exactly when some line contains "-" and yields it |
| Placeholders.ValuesDict | utilisys/utilisys.py:574-583 | the result has each key once; its keys are those of the lines with a "-"; each value is "Placeholder for " and the key |
| Placeholders.StoredKeysStripped | utilisys/utilisys.py:579 | every stored key has no edge whitespace |
| Placeholders.KeyAfterDashes | utilisys/utilisys.py:579 | for an already stripped line, the key is what follows its leading dashes, stripped |
| Placeholders.DashAfterSpaceIsKept | utilisys/utilisys.py:579 | the line `- -x` gives the key `-x` |
| Placeholders.InnerDashMarksLine | utilisys/utilisys.py:578-579 | `well-known` contains a "-" and is its own key |
| Dicts.SetGet | utilisys/utilisys.py:181 | after `d[k] = v`, `k` holds `v` and every other key what it held |
| Dicts.FromItemsSpec | utilisys/utilisys.py:117 | `dict(items)` has each key once, in order of first appearance, with the value of its last pair |
| Dicts.FromItemsEntries | utilisys/utilisys.py:117 | `dict(items)` has the keys of `items` and only pairs from `items` |
| Dicts.LastValueAppend | utilisys/utilisys.py:112 | in a concatenation the later part's value wins |
| PyStr.Strip | utilisys/utilisys.py:355 | `strip()` never lengthens and leaves no edge whitespace |
| PyStr.LStripChar | utilisys/utilisys.py:579 | `lstrip("-")` removes exactly the leading dashes |
| PyStr.RemoveChar | utilisys/utilisys.py:471 | `replace("\\", "")` leaves no backslash and never lengthens |
| PyStr.RemoveCharCounts | utilisys/utilisys.py:471 | `replace` keeps every other character with its multiplicity |
| PyStr.Split | utilisys/utilisys.py:574 | `split("\n")` yields at least one part, parts without line feeds, joining back to the content |

## Left out

- The other helpers of the file are not part of this model, because they are I/O, network or library glue with no logic of their own:
  - `get_api`: the 1Password vault client.
  - `load_contract_requirements` / `get_requirements`: a database through SQLAlchemy and pandas.
  - `standardize_phone_number`: the phonenumbers library.
  - `fetch_and_parse_html`: HTTP and BeautifulSoup.
  - `parse_eml_file`, `read_all_eml_files`, `delete_file`, `read_excel_to_dataframe` and `save_json_to_file`: files and printing.
  - `fix_json`: a call to a remote completion API.
  - `convert_to_dict`: two replacements around `json.loads`, whose parsing is the substance.
  - `plaintext_output`: a single `"\n".join`.
  - `collect_information_from_text`, `collect_data_from_user`, `process_content` and `update_content`: interactive `input()` and `print`. `process_content` passes its result through `update_content`.
  - `write_to_redis`: an asynchronous cache write.
  - `setup.py`: packaging.
- Logging calls are not modelled; they have no effect on results.
- `str()`, `fuzz.ratio` and `str.lower` are function parameters. Nothing is assumed about them, so the model does not capture that ratios lie between 0 and 100, or Unicode case mapping.
- Whitespace is the `str.isspace` set as a fixed list of code points; no other Unicode property is modelled.
- Flatten.FlattenDict: states each key's value and that keys are distinct, but not the order of the keys in the result.
- FindText.FindText: `max_chars` is a natural number. A negative or non-integer `max_chars` would produce a different pattern text, and is not modelled. `FindText` itself assumes the pattern compiles; `FindTextOrRaise` adds the `OverflowError` for a `max_chars` of 4294967295 or more.
- JsonValue.Value: floats are not modelled. Dict keys are strings only, so Python's `1 == True` key equality and non-string keys do not arise; keys read from JSON are strings.
- JsonValue.Value: a `Dict` may list a key twice, which no Python dict does. On such a value `GetItem` returns the first entry's value and `Iterate` yields the key twice; no well-formedness predicate excludes it.
- WorkExperience.Record: a company is stored under Dafny value equality. Python's hash-based equality across types (`1 == 1.0 == True`) is not modelled.
- NameField.GetNameFromString: the "Name not found" result is stated one way. A genuine name "Name not found" also returns that string; `GetNameIs` gives the name of every match.
