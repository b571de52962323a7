# toml-diff in Dafny

A model of the `toml-diff` library's core: the structural diff of two
TOML value trees (`diff` / `diff_rec` in `src/lib.rs`) and the textual
report of the resulting change list (`fmt` / `format_change` in
`src/display.rs`).

- `toml.dfy` (module `Toml`): the TOML value tree, the byte-wise order on
  keys, and the stable sort of a table's entries by key
  (`sort_by_key(|e| e.0)`).
- `merge.dfy` (module `Merge`): the walk of two key-sorted entry lists as a
  list of steps (key only in `a`, only in `b`, in both), and what the walk
  promises: it consumes each entry exactly once, classifies every key
  correctly, and visits keys in ascending order.
- `diff_engine.dfy` (module `DiffEngine`): `DiffOf`, the meaning of
  `diff_rec(path, a, b)` as a function, the imperative methods `DiffRec`,
  `DiffTables`, `MergeSorted` (the two-cursor loop), `DiffArrays` (the zip
  loop) and `Diff`, each proved to compute `DiffOf`, and the properties of
  the diff: identical documents give only `Same`, every key missing from one
  side is reported, matched keys and array positions recurse under the
  extended path, the array tail past the shorter array is ignored, and
  every reported value is drawn from the inputs.
- `as_written.dfy` (module `AsWritten`): the two-cursor loop as written,
  where equal keys move neither cursor, and the proof that it then never
  leaves that state (see Findings). The nested call on equal keys is
  modelled by the corrected `DiffOf`, which is exact for scalar sub-values.
- `display.dfy` (module `Display`): the report as a list of lines
  (`Lines`, `Render`), a `Formatter` class whose output only grows, the
  methods `FormatChange`, `FormatEntries` and `Fmt` that write to it, each
  proved to append exactly the rendered text, and the properties of the
  report.
- `examples.dfy` (module `Examples`): the four scenarios of `src/test.rs`
  with the documents rebuilt from their expected reports; the string, array
  and table scenarios give exactly the expected text, and the nested-table
  scenario is shown to render its inner tables under bare-key headers.
  These reports are those of the corrected loop: the string scenario's
  documents share the keys `a` and `d`, on which the loop as written never
  finishes (see Findings).

Conventions of the model:

- The first document `a` is the one compared to: what only `a` has is
  `Added`, what only `b` has is `Deleted`.
- Paths: the walk starts at `""`; a key present in both tables recurses
  under `path + "." + key`; array element `i` recurses under
  `path + "[" + i + "]"`. `Added` and `Deleted` from a table walk carry the
  entry's bare key, as `src/lib.rs:33` and `src/lib.rs:36` do; a leaf
  mismatch carries the current path (`src/lib.rs:64`).
- A table is a sequence of `(key, value)` entries. The distinct-keys
  property that a TOML table guarantees is a predicate (`DistinctKeys`)
  that only the lemmas needing it require; the diff itself is total.
- `toml::to_string`, which the renderer calls for non-string, non-table
  values, is the function parameter `ser`.
- The change list: `Change` has the variants `Same`, `Added`, `Deleted`
  (`src/lib.rs:5-9`) and `Changed` (`src/display.rs:16`); `TomlDiff` wraps
  the list the renderer walks (`src/display.rs:10`).
- `src/display.rs` and `src/lib.rs` disagree on the result type: the
  renderer matches a `TomlChange` with a `Changed` variant held in a
  `TomlDiff { changes }`, while `src/lib.rs` returns a vector of a
  three-variant `TomlDiff`. The model has one `Change` datatype with all
  four variants and a `TomlDiff(changes)` wrapper; the diff never produces
  `Changed`.

## Model

| member | source | states |
|---|---|---|
| Toml.KeyLess | src/lib.rs:32 | `a_key < b_key` on keys: lexicographic by character with a proper prefix first; no key is less than itself |
| Toml.KeyLessTransitive | src/lib.rs:19-20 | the key order is transitive, so sorting by it is well defined |
| Toml.KeyLessTotal | src/lib.rs:19-20 | any two distinct keys are ordered one way or the other |
| Toml.SortByKey | src/lib.rs:17-20 | the collected entries, reordered by key: the result is sorted by key and is a permutation of the input |
| Toml.SortByKeyOfTable | src/lib.rs:17-20 | on a table (distinct keys) the sorted entries are strictly ascending and have exactly the table's key set |
| Toml.SortByKeyOfSorted | src/lib.rs:19-20 | sorting entries already in key order leaves them unchanged |
| Merge.MergeWalk | src/lib.rs:24-47 | the walk's steps over two sorted lists, one per loop pass while both cursors are in range and then one per leftover entry: at least as many steps as the longer list has entries and at most as many as both have together |
| Merge.WalkConsumesEachEntryOnce | src/lib.rs:21-47 | the entries the walk takes from `a` are exactly `a`'s sorted entries in order, and likewise for `b`: each entry is taken once and none is skipped |
| Merge.StepKeysFromInputs | src/lib.rs:25-45 | every step of the walk is about a key of one of the two inputs |
| Merge.StepKeysAscending | src/lib.rs:30-37 | on strictly sorted inputs the walk's steps have strictly ascending keys |
| Merge.WalkClassifies | src/lib.rs:27-45 | on strictly sorted inputs: a key-only-in-`a` step exists iff the entry is in `a` and the key is not in `b`; symmetrically for `b`; a both-sides step exists iff the key is in both with those values |
| Merge.StepEntriesFromInputs | src/lib.rs:25-45 | every value a step carries is an entry of the side it names |
| Merge.WalkOfSelf | src/lib.rs:27-28 | walking a list against itself gives only both-sides steps with equal values |
| DiffEngine.NatToString | src/lib.rs:55 | the index written into an element path is a non-empty string of decimal digits, without a leading zero, that denotes the index (`DigitsValue(s) == n`) |
| DiffEngine.MemberPath | src/lib.rs:28 | the label of a matched key is the parent path, a `.`, and the key, each readable back from the label |
| DiffEngine.MemberPathInjective | src/lib.rs:28 | under one parent path, different keys get different labels |
| DiffEngine.ElemPathInjective | src/lib.rs:55 | under one parent path, different array indices get different labels |
| DiffEngine.AddedAll | src/lib.rs:43 | every entry left in `a` once `b` runs out becomes `Added` of that entry, in order |
| DiffEngine.DeletedAll | src/lib.rs:45 | every entry left in `b` once `a` runs out becomes `Deleted` of that entry, in order |
| DiffEngine.DiffOf | src/lib.rs:14-67 | the change list of `diff_rec`: it never holds `Changed`, and it is empty only when both values are tables or both are arrays |
| DiffEngine.StepChanges | src/lib.rs:27-37 | a key on one side only yields exactly one change, `Added` or `Deleted`, under the bare key; no step yields `Changed` |
| DiffEngine.EmitSteps | src/lib.rs:24-47 | the changes of a run of walk steps (loop passes with both cursors in range, then leftover entries): every key only in `a` is reported `Added` with its value, every key only in `b` `Deleted` with its value, and none is `Changed` |
| DiffEngine.ZipFrom | src/lib.rs:54-55 | the changes of the zipped elements from an index on; none is `Changed` |
| DiffEngine.DiffRec | src/lib.rs:14-67 | the recursive diff computes `DiffOf(path, a, b)` |
| DiffEngine.DiffTables | src/lib.rs:16-51 | the table arm (collect, sort, merge) computes `DiffOf(path, a, b)` |
| DiffEngine.MergeSorted | src/lib.rs:21-50 | the two-cursor loop, with equal keys advancing both cursors, computes the changes of the merge walk of the sorted entries; its invariant is that the changes so far plus those of the remaining walk are the whole result |
| DiffEngine.DiffArrays | src/lib.rs:52-57 | the zip loop computes `DiffOf(path, a, b)` of two arrays |
| DiffEngine.Diff | src/lib.rs:12-70 | `diff(a, b)` is the recursive diff from the empty path |
| DiffEngine.LeafChanges | src/lib.rs:59-65 | two values of different kinds, a table against an array included, are reported whole under the current path: `a` added, then `b` deleted |
| DiffEngine.ScalarChanges | src/lib.rs:59-65 | a scalar compared with any value gives `[Same]` exactly when the two are equal, and otherwise the pair whole under the current path |
| DiffEngine.DiffOfSelf | src/lib.rs:12-70 | diffing any value against itself reports only `Same` |
| DiffEngine.DiffDrawsFromInputs | src/lib.rs:33-64 | every `Added` value is `a` or lies inside `a`, and every `Deleted` value is `b` or lies inside `b` |
| DiffEngine.ArrayTailIgnored | src/lib.rs:54 | elements past the end of the shorter array do not affect the diff of two arrays |
| DiffEngine.ElementRecursesUnderIndexPath | src/lib.rs:54-55 | for each index below both lengths, the diff of those two elements under `path[i]` occurs contiguously in the arrays' diff |
| DiffEngine.TableWalkClassifies | src/lib.rs:17-45 | for two tables, the walk over their sorted entries has an only-`a` step iff the entry is in `a` and the key is not in `b`, an only-`b` step symmetrically, and a both-sides step iff the key is in both |
| DiffEngine.TableWalkAscending | src/lib.rs:17-37 | for two tables, the walk visits keys in strictly ascending order |
| DiffEngine.KeyOnlyInAIsAdded | src/lib.rs:32-34 | an entry whose key is missing from `b` is reported as `Added` with its bare key |
| DiffEngine.KeyOnlyInBIsDeleted | src/lib.rs:35-37 | an entry whose key is missing from `a` is reported as `Deleted` with its bare key |
| DiffEngine.MatchedKeyRecursesUnderMemberPath | src/lib.rs:27-28 | for a key in both tables, the diff of its two values under `path.key` occurs contiguously in the tables' diff |
| AsWritten.Pass | src/lib.rs:24-47 | one pass of the loop as written: once finished the state is unchanged, it finishes when a side runs out, and a pass on different keys moves exactly one cursor, the smaller key's, appending `Added` or `Deleted` of that entry |
| AsWritten.EqualKeysNeverAdvance | src/lib.rs:27-28 | as written, once the two cursors show equal keys, any number of further passes leaves both cursors where they are, never finishes, and appends the same corrected sub-diff each time |
| AsWritten.SameSingleKeyTableNeverFinishes | src/lib.rs:24-47 | as written, diffing a one-entry table against itself never finishes: after n passes the change list is n copies of `Same`, while the intended diff is `[Same]` |
| Display.StringLine | src/display.rs:32 | a string line starts with the sign and a space, and holds a newline exactly when the key or the string does |
| Display.HeaderLine | src/display.rs:34 | a table header starts with the sign and a space, and holds a newline exactly when the key does |
| Display.ValueLine | src/display.rs:44 | a serialized-value line starts with the sign and a space, and holds a newline exactly when the key or the serializer's text does |
| Display.Text | src/display.rs:32-44 | the lines as `writeln!` writes them: empty exactly when there are no lines, at least one character per line, and ending in a newline otherwise |
| Display.Render | src/display.rs:8-22 | a non-empty report ends with a newline |
| Display.LinesConcat | src/display.rs:10-20 | the lines of two change lists in sequence are the two lists' lines concatenated |
| Display.ChangeLines | src/display.rs:25-47 | every change renders to at least one line, and every line starts with the change's sign and a space |
| Display.EntriesLines | src/display.rs:35-37 | every line of a table's entries starts with the sign and a space |
| Display.Formatter.WriteLine | src/display.rs:32 | writing a line appends it and a newline to the output and changes nothing else |
| Display.FormatChange | src/display.rs:25-47 | appends exactly the rendered lines of one keyed value to the output |
| Display.FormatEntries | src/display.rs:35-38 | appends exactly the rendered lines of a table's entries, in the table's order |
| Display.FormatOne | src/display.rs:11-19 | one change appends nothing for `Same`, and the `+` or `-` rendering for `Added` or `Deleted` |
| Display.Fmt | src/display.rs:8-22 | writing a change list appends exactly `Render` of it to the output |
| Display.ToText | src/display.rs:8-22 | the report written into a fresh output is `Render` of the change list |
| Display.RenderConcat | src/display.rs:10-20 | the report of two change lists in sequence is the two reports concatenated |
| Display.LinesSigned | src/display.rs:12-15 | every written line (one `writeln!`) starts with `+ ` or `- `; a list of only additions gives only `+` lines and one of only deletions only `-` lines |
| Display.EmptyReportIffOnlySame | src/display.rs:10-20 | the report is empty iff every change is `Same` |
| Display.ChangeLinesCount | src/display.rs:31-46 | a scalar renders to one line and a table to one header line plus its entries' lines, recursively |
| Display.DiffIsRenderable | src/display.rs:16-18 | the diff never produces `Changed`, so the unimplemented arm is never reached |
| Display.IdenticalDocumentsRenderEmpty | src/display.rs:8-22 | the report of a document against itself is empty |
| Examples.StringsReport | src/test.rs:6-14 | the string scenario's diff renders to exactly the four expected lines |
| Examples.ArraysReport | src/test.rs:16-25 | the array scenario's diff renders to exactly the four expected lines, given the serializer's text for the four arrays |
| Examples.TablesReport | src/test.rs:27-38 | the table scenario's diff renders to exactly the six expected lines |
| Examples.OuterDiff | src/lib.rs:27-28 | documents with one table under `outer` diff as the inner values under the path `.outer` |
| Examples.NestedTablesUseBareKeys | src/test.rs:40-49 | for any inner values, the nested scenario's diff is `Deleted("inner_b", …)` then `Added("inner_c", …)`, labelled with bare keys |
| Examples.NestedReport | src/test.rs:40-49 | with the scenario's inner tables `{b = 2}` and `{c = 3}`, the report is `- [inner_b]`, `- b = 2`, `+ [inner_c]`, `+ c = 3`: bare-key headers, not the `[outer.…]` ones the test expects |
| Examples.EmbeddedNewlineLeavesUnsignedLine | src/display.rs:32 | a string holding a newline is written unescaped, so its report `+ k = "x` / `y"` has a second physical line without a sign |

## Left out

- Parsing TOML text and reading the test documents from disk: the model
  starts from value trees, and the scenarios' documents are rebuilt from
  the expected reports, with the values those reports do not show left as
  parameters.
- `toml::to_string` is a parameter `ser`; its `unwrap` panic on a value it
  cannot serialize is not modelled.
- Floats and datetimes are tokens for their classes under the library's
  equality (`0.0` and `-0.0` share a token, as do two spellings of the same
  datetime fields); NaN, which the library holds unequal to itself, is not
  modelled, so a NaN compared with itself would be `Same` here. Because
  `ser` is a function of the value, the report writes both zeros with the
  same text, where the library's serializer writes `0.0` and `-0.0`
  differently.
- Borrowed versus owned strings (`Cow`) and lifetimes: keys and paths are
  plain strings.
- Errors returned by the formatter: writing is modelled as appending to a
  string, which cannot fail.
- Rendering of `Changed` (`todo!()` in `src/display.rs:16-18`): `Lines`,
  `Render`, `Fmt` and `ToText` require a change list without `Changed`,
  which `Display.DiffIsRenderable` shows every diff is.
- The order in which a table's entries are iterated is the order of its
  entry sequence; the library's map order is not modelled. It matters only
  for the order of the lines under a table header and for which of two
  equal keys sorts first, which a table's distinct keys rule out.
- Keys are compared lexicographically by character, which for Rust's
  `str` order is the same as by UTF-8 bytes.
- The diff is recursive in the model as in the source; no explicit work
  stack is modelled.
- A top-level non-table document is not an error in the code (any two
  values are diffed), so the model reports no error for it.
- Array elements past the end of the shorter array are dropped by `zip`,
  and the code emits no `Changed`; the model follows the code on both
  (`DiffEngine.ArrayTailIgnored`).
- The nested-table test expects `[outer.inner_b]` headers; the code passes
  the path only into matched keys and labels missing entries with their
  bare keys, so the model follows the code (`Examples.NestedTablesUseBareKeys`).
- A string value, key or serializer text holding a newline is written
  unescaped in the source, so one `writeln!` can give several physical
  lines and only the first carries the sign; the model keeps this
  (`Display.StringLine`, `Examples.EmbeddedNewlineLeavesUnsignedLine`), and
  `Display.LinesSigned` is about the written lines, not physical lines.
- AsWritten.Pass: the nested `diff_rec` call on equal keys is modelled by
  the corrected `DiffOf`; as written that call never returns when the two
  sub-values are tables sharing a key, so the as-written model is exact only
  where the sub-values are scalars, as in its one-key witness.
- Colourized output is not modelled; the code does not implement it either.

## Findings

| source | as written | input that shows it | evidently intended | confidence | as-written member | corrected member |
|---|---|---|---|---|---|---|
| src/lib.rs:27-28 | when the two cursors show equal keys, the sub-diff is appended but neither iterator is advanced, so the loop repeats the same pass forever | two tables sharing any key, e.g. `k = 1` against itself | advance both iterators after recursing into a shared key, so each key is visited once | not executed | AsWritten.SameSingleKeyTableNeverFinishes | DiffEngine.MergeSorted |
