# kedro-diff in Dafny

kedro-diff compares two versions of a kedro project's pipelines, as the
`pipeline.json` snapshots that `kedro get-json` saves for two git commits.
This project models its core and proves properties of the model:

- `KedroDiff` (kedro_diff/diff.py): joins the nodes of two snapshots by
  name, counts new nodes, dropped nodes and nodes whose `inputs`, `outputs`
  or `tags` changed, and renders the one-line summary `stat()` prints
  (module `Diff`, file `diff.dfy`);
- `NodeDiff` (kedro_diff/node_diff/node_diff.py): compares two versions of
  one node record and prints a header and a line per changed attribute
  (module `NodeDiff`, file `node_diff.dfy`);
- the older `NodeDiff` that still ships as kedro_diff/node_diff.py, which
  reads attributes with `getattr` first and prints new and deleted nodes
  differently (module `LegacyNodeDiff`, file `legacy_node_diff.dfy`);
- `parse_commit` and the metadata file-name rule of `load_commit_metadata`
  (kedro_diff/commit_parser.py): turns `main..feature`, `main...feature`,
  `feature` or a tuple of command-line words into the two commits to
  compare (module `CommitParser`, file `commit_parser.dfy`);
- `create_simple_sample` (kedro_diff/sample_data.py): the chained sample
  pipelines every test and example is built from (module `SampleData`,
  file `sample_data.dfy`).

Supporting modules: `Wrappers` (Option, Result), `Strings` (substring
search, `split`, `join`, `replace`, `ljust`, character counts, decimal
rendering of naturals), `Values` (the Python values stored in a node record,
and node records as insertion-ordered dictionaries) and `Pipeline` (the
snapshot document).

`KedroDiff` computes every property afresh from two fixed node lists, so it
is a datatype with member functions. Both `NodeDiff` classes print through a
rich `Console`; each is a class whose `console` field is the sequence of
strings handed to `console.print`. Its `Diff`, `DiffAttrs` and `DiffAttr`
methods append to that field, and each is proved to append exactly what a
specification function (`DiffLines`, `AttrsLines`/`AttrsReport`,
`AttrLines`/`DiffAttrLines`) says.

## Model

| member | source | states |
|---|---|---|
| Values.SameNode | kedro_diff/node_diff/node_diff.py:35-37 | Python's `==` on two optional dicts; Values.SameNodeIsLookupEquality states what it means |
| Values.VisibleKeysAppend | kedro_diff/node_diff/node_diff.py:63 | filtering out `_`-prefixed keys keeps their order: the filter of `a + b` is the filter of `a` followed by that of `b` |
| Values.SameNodeIsLookupEquality | kedro_diff/node_diff/node_diff.py:35-37 | Python's `==` on two optional dicts holds exactly when both are missing, or both are present and every key lookup agrees, whatever the key order |
| Diff.FromSnapshots | kedro_diff/diff.py:34-38 | the differ keeps the `pipeline` lists of both snapshots and the pipeline name |
| Diff.WithAttr | tests/test_diff.py:12-20 | replacing one attribute of a node record keeps its name and every other attribute |
| Diff.FromSample | kedro_diff/diff.py:40-70 | the differ of two `create_simple_sample` snapshots; what it counts and prints is stated by Diff.FromSampleDocTest, Diff.SampleGrowth, Diff.SampleShrink and Diff.SamplesRenamed |
| Diff.KedroDiff.NewNodes | kedro_diff/diff.py:72-85 | the names only the target has; Diff.NewDroppedPartition, Diff.SwapExchangesNewAndDropped, Diff.PrefixPipelines and Diff.DisjointPipelines state which names they are |
| Diff.KedroDiff.DroppedNodes | kedro_diff/diff.py:87-91 | the names only the base has; Diff.NewDroppedPartition, Diff.SwapExchangesNewAndDropped, Diff.ShorterTarget and Diff.DisjointPipelines state which names they are |
| Diff.KedroDiff.NotNewDroppedNodes | kedro_diff/diff.py:93-99 | the target's names less the new and dropped ones are exactly the names both pipelines share |
| Diff.KedroDiff.ChangeAttr | kedro_diff/diff.py:113-128 | every entry belongs to a node both pipelines have, and a pipeline compared with itself has no entries |
| Diff.KedroDiff.NumAdds | kedro_diff/diff.py:140-146 | `num_adds` plus `num_drops` is `num_changes`, and `num_adds` counts the new nodes and the three kinds of attribute change |
| Diff.NewDroppedPartition | kedro_diff/diff.py:72-99 | new, dropped and common names are pairwise disjoint; new plus common is the target, dropped plus common is the base |
| Diff.SwapExchangesNewAndDropped | kedro_diff/diff.py:72-99 | exchanging base and target exchanges new and dropped nodes and keeps the common ones |
| Diff.ChangeAttrCount | kedro_diff/diff.py:113-128 | with unique node names, `change_attr` has one entry per common node whose attribute value differs |
| Diff.KedroDiff.NumChanges | kedro_diff/diff.py:130-138 | zero exactly when there is no new node, no dropped node and no entry in any of the three attribute changes; Diff.NumChangesByNames counts it by names, Diff.NumChangesSymmetric shows it does not depend on the direction |
| Diff.KedroDiff.NumDrops | kedro_diff/diff.py:144-146 | never more than `num_changes`, the rest being `num_adds` (Diff.KedroDiff.NumAdds) |
| Diff.NumChangesByNames | kedro_diff/diff.py:130-138 | with unique names, `num_changes` is new plus dropped plus the per-attribute counts of changed common nodes |
| Diff.NumChangesSymmetric | kedro_diff/diff.py:130-146 | with unique names, swapping base and target keeps `num_changes`; the drops become the former new nodes |
| Diff.ChangedNamesSwapped | kedro_diff/diff.py:113-128 | which common nodes changed an attribute does not depend on the direction of the comparison |
| Diff.IdenticalNoChanges | kedro_diff/diff.py:130-146 | a pipeline compared with itself has no changes, adds or drops |
| Diff.PrefixPipelines | kedro_diff/diff.py:72-146 | a uniquely named target that extends the base has exactly `|target| - |base|` changes, all of them adds |
| Diff.ShorterTarget | kedro_diff/diff.py:72-146 | a target that is the base cut short has exactly `|base| - |target|` changes, all of them drops |
| Diff.DisjointPipelines | kedro_diff/diff.py:72-146 | pipelines sharing no name: every target node is an add, every base node a drop |
| Diff.UpdateKeepsNames | kedro_diff/diff.py:72-99 | replacing one attribute of one node keeps the set of names and their uniqueness |
| Diff.UpdateChangedNames | kedro_diff/diff.py:113-128 | after replacing attribute `a` of one node by a different value, that node is the only changed name, and only for `a` |
| Diff.OneAttributeChanged | kedro_diff/diff.py:113-146 | one changed attribute of one node is one change, one add, no drop |
| Diff.StatLine | kedro_diff/diff.py:148-150 | the layout of `_stat_msg` for given counts; what it shows is stated by Diff.StatLineMarks, Diff.StatLineShows and Diff.StatLineReads |
| Diff.StatHead | kedro_diff/diff.py:150 | the part of the line before the plus signs; Diff.StatHeadUnmarked and Diff.StatHeadTwo state its contents |
| Diff.StatHeadUnmarked | kedro_diff/diff.py:150 | the part before the plus signs holds no `+` or `-` unless the name does |
| Diff.StatLineMarks | kedro_diff/diff.py:148-150 | with no `+` or `-` in the name, the stat line holds exactly `num_adds` plus and `num_drops` minus signs |
| Diff.StatLineShows | kedro_diff/diff.py:148-150 | the stat line shows `M`, the change count at column 46, both runs of marks, and a name of up to 30 characters |
| Diff.StatLineReads | kedro_diff/diff.py:148-150 | for a short name without marks: `M`, the name, the count, runs of exactly `adds` plus and `drops` minus signs and no longer ones |
| Diff.KedroDiff.StatMsg | kedro_diff/diff.py:148-150 | when the name holds no `+` or `-`, the line's plus signs count `num_adds` and its minus signs `num_drops`; the full reading is Diff.StatMsgReads |
| Diff.StatMsgReads | kedro_diff/diff.py:148-150 | for a name of up to 30 characters without `+` or `-`, `_stat_msg` shows `M`, the name, `num_changes` at column 46, and single runs of exactly `num_adds` plus and `num_drops` minus signs, with no longer run |
| Diff.SampleGrowth | tests/test_diff.py:24-30 | a sample against a longer sample built the same way: `n - m` changes, all adds |
| Diff.SampleShrink | tests/test_diff.py:31-37 | a sample against a shorter one: `m - n` changes, all drops |
| Diff.SamplesRenamed | tests/test_diff.py:45-51 | two `n`-node samples with unrelated name prefixes: `2n` changes, `n` adds, `n` drops |
| Diff.OneNodeStatMsg | tests/test_diff.py:24-44 | one node against none, either way round, gives the stat line with one change and the one add or drop |
| Diff.StatOneNewNode | tests/test_diff.py:24-30 | empty base, one-node target, any short mark-free name: the line holds `M`, `1`, the name and `+`, and no `-` or `++` |
| Diff.StatOneDroppedNode | tests/test_diff.py:31-37 | one-node base, empty target: `M`, `1`, the name and `-`, and no `+` or `--` |
| Diff.StatLineOneAdd | tests/test_diff.py:24-30 | a stat line of one change and one add holds `1` and a single `+`, no `-` |
| Diff.StatLineOneDrop | tests/test_diff.py:31-37 | a stat line of one change and one drop holds `1` and a single `-`, no `+` |
| Diff.StatRenamed | tests/test_diff.py:45-51 | `first` against `second` samples of `n` nodes: the count `2n` and runs of exactly `n` plus and `n` minus signs |
| Diff.DefaultColumn | kedro_diff/diff.py:150 | `"__default__".ljust(30)[:30]` is the name padded with 19 spaces |
| Diff.StatHeadTwo | kedro_diff/diff.py:60-66 | the head of the stat line for two changes of `__default__`, character for character |
| Diff.StatLineTwoAdds | kedro_diff/diff.py:60-66 | the stat line of two adds of `__default__`, character for character |
| Diff.StatLineTwoAddsMarks | tests/test_diff.py:112-117 | that line holds the name and `++`, and no `+++` or `-` |
| Diff.FromSampleDocTest | kedro_diff/diff.py:40-70 | `from_sample({"num_nodes": 2}, {"num_nodes": 4})` renders the doc-tested line, with the marks its test checks |
| Diff.ThirdNodeDiffers | tests/test_diff.py:12-20 | the replacement input, output or tag differs from the third sample node's value |
| Diff.StatOneAttributeChange | tests/test_diff.py:52-72 | a ten-node (or longer) sample with one attribute of its third node replaced renders `1` and a single `+`, no `-` |
| SampleData.CreateSimpleSample | kedro_diff/sample_data.py:8-47 | the version is passed through; `max(n, 0)` nodes; node `i` is named `prefix + str(i + 1)`, writes `output<i+1>` and carries `tag<i+1>` or `""` |
| SampleData.SampleChained | kedro_diff/sample_data.py:36-46 | the first node reads `output0` and each later node reads what the node before it writes |
| SampleData.SampleInputs | kedro_diff/sample_data.py:41 | node `i` (from 0) reads `output<i>` |
| SampleData.SampleNamesUnique | kedro_diff/sample_data.py:40 | node names of a sample are pairwise distinct |
| SampleData.SamplePrefix | kedro_diff/sample_data.py:36-46 | a smaller sample is a prefix of a larger one built with the same arguments |
| SampleData.SampleNamesDisjoint | kedro_diff/sample_data.py:40 | samples whose prefixes are not prefixes of one another share no name |
| SampleData.SampleDocTests | kedro_diff/sample_data.py:25-33 | the three doc-tested calls give the documented dictionaries |
| SampleData.EmptySample | kedro_diff/sample_data.py:45 | a sample of zero nodes has an empty pipeline |
| NodeDiff.NodeDiff.constructor | kedro_diff/node_diff/node_diff.py:15-33 | stores both nodes, the name and the verbose level; nothing printed yet |
| NodeDiff.NodeDiff.IsChanged | kedro_diff/node_diff/node_diff.py:35-37 | Python's `!=` on the two optional dicts; NodeDiff.IsChangedIff and NodeDiff.KeyOrderIgnored state when it holds |
| NodeDiff.NodeDiff.IsNone | kedro_diff/node_diff/node_diff.py:39-41 | two missing nodes never count as changed |
| NodeDiff.NodeDiff.IsNew | kedro_diff/node_diff/node_diff.py:43-45 | a missing base under a present target is always a change |
| NodeDiff.NodeDiff.IsDeleted | kedro_diff/node_diff/node_diff.py:47-49 | a missing target under a present base is always a change |
| NodeDiff.NodeDiff.Status | kedro_diff/node_diff/node_diff.py:115-140 | the branch `diff` takes, each one characterised by which nodes are present and whether they are equal |
| NodeDiff.NodeDiff.Attrs | kedro_diff/node_diff/node_diff.py:51-65 | the visible keys of the new node, or of the old one for a deleted node, in insertion order (the node's keys with the `_`-prefixed ones filtered out), nothing when both are missing; distinct keys stay distinct |
| NodeDiff.NodeDiff.GetAttr | kedro_diff/node_diff/node_diff.py:67-91 | both sides of an attribute, `None` for a missing node or key, `(None, None)` when either side is callable |
| NodeDiff.NodeDiff.DiffColor | kedro_diff/node_diff/node_diff.py:107-113 | red exactly for a deleted node, green exactly for a new one, gold1 exactly when both are present |
| NodeDiff.NodeDiff.AttrLines | kedro_diff/node_diff/node_diff.py:93-101 | at most one line, and one exactly when the values, `None` blanked to `""`, differ; the line's layout |
| NodeDiff.NodeDiff.AttrsLines | kedro_diff/node_diff/node_diff.py:103-105 | at most one line per attribute, and none exactly when no attribute is reported |
| NodeDiff.NodeDiff.Header | kedro_diff/node_diff/node_diff.py:123-139 | the header line of each changed branch; NodeDiff.NodeDiff.DiffLines, NodeDiff.NewNodeShowsValues and NodeDiff.DeletedNodeShowsValues state where it is printed |
| NodeDiff.NodeDiff.DiffLines | kedro_diff/node_diff/node_diff.py:115-140 | a changed node prints its header and then its attribute lines; a missing or unchanged one prints one grey line (`is None`, `is unchanged`) at verbose level 2 and up, nothing otherwise |
| NodeDiff.NodeDiff.DiffAttr | kedro_diff/node_diff/node_diff.py:93-101 | appends exactly `AttrLines(attr)` to the console |
| NodeDiff.NodeDiff.DiffAttrs | kedro_diff/node_diff/node_diff.py:103-105 | appends exactly the lines of every attribute of `attrs`, in order |
| NodeDiff.NodeDiff.Diff | kedro_diff/node_diff/node_diff.py:115-140 | appends exactly `DiffLines()` to the console |
| NodeDiff.IsChangedIff | kedro_diff/node_diff/node_diff.py:35-37 | a node is changed exactly when one side is missing or some key lookup differs |
| NodeDiff.ReportedIff | kedro_diff/node_diff/node_diff.py:67-101 | an attribute is reported exactly when neither side is callable, the sides differ and they are not `None` against `""` |
| NodeDiff.ReportedLineShown | kedro_diff/node_diff/node_diff.py:103-105 | each reported attribute's line is among the lines of `diff_attrs` |
| NodeDiff.ShownLineReported | kedro_diff/node_diff/node_diff.py:103-105 | conversely, every line of `diff_attrs` is the line of a reported attribute among `attrs` |
| NodeDiff.AttrsLinesAppend | kedro_diff/node_diff/node_diff.py:103-105 | the lines follow the attribute order: those of `a + b` are those of `a` followed by those of `b` |
| NodeDiff.NewNodeShowsValues | kedro_diff/node_diff/node_diff.py:122-124 | a new node prints its header and the line of every visible non-empty non-callable attribute, old side empty |
| NodeDiff.DeletedNodeShowsValues | kedro_diff/node_diff/node_diff.py:130-132 | a deleted node prints its struck-through header and the line of every visible non-empty non-callable attribute |
| NodeDiff.ModifiedNodeShowsChange | kedro_diff/node_diff/node_diff.py:138-140 | two present nodes with a changed non-callable attribute: the gold line of that attribute is printed |
| NodeDiff.TestAttrs | tests/test_node_diff.py:73-90 | `attrs` of the test node, on both sides, only new or only old, is `{"name", "inputs", "outputs"}` |
| NodeDiff.TestGetAttr | tests/test_node_diff.py:92-137 | the four `get_attr` test rows |
| NodeDiff.KeyOrderIgnored | kedro_diff/node_diff/node_diff.py:35-37 | the same items inserted in another order are not a change and print nothing by default |
| LegacyNodeDiff.NodeDiff.constructor | kedro_diff/node_diff.py:15-33 | stores both nodes, the name and the verbose level; nothing printed yet |
| LegacyNodeDiff.NodeDiff.IsChanged | kedro_diff/node_diff.py:35-37 | Python's `!=` on the two optional dicts; LegacyNodeDiff.NodeDiff.DiffLines and LegacyNodeDiff.ModifiedAgreesWithRewrite rely on it as the rewrite does |
| LegacyNodeDiff.NodeDiff.IsNone | kedro_diff/node_diff.py:39-40 | two missing nodes never count as changed |
| LegacyNodeDiff.NodeDiff.IsNew | kedro_diff/node_diff.py:42-44 | a missing base under a present target is always a change |
| LegacyNodeDiff.NodeDiff.IsDeleted | kedro_diff/node_diff.py:46-48 | a missing target under a present base is always a change |
| LegacyNodeDiff.NodeDiff.ModName | kedro_diff/node_diff.py:50-57 | the name for an unchanged or new node, struck through for a deleted one, `None` for a changed node present on both sides |
| LegacyNodeDiff.NodeDiff.Attrs | kedro_diff/node_diff.py:59-66 | the visible keys of the new node, or of the old one for a deleted node, in insertion order (the node's keys with the `_`-prefixed ones filtered out); an error exactly when both are missing |
| LegacyNodeDiff.NodeDiff.GetAttr | kedro_diff/node_diff.py:68-91 | both sides, `None` for a missing node, `(None, None)` for a dict method's name on a present node |
| LegacyNodeDiff.NodeDiff.DiffAttrLines | kedro_diff/node_diff.py:93-101 | one gold line exactly when the two values differ, `None` shown as `None` |
| LegacyNodeDiff.NodeDiff.NewAttrLines | kedro_diff/node_diff.py:112-116 | one line exactly when the new value is non-empty, listing it under the full attribute name |
| LegacyNodeDiff.NodeDiff.DeletedAttrLines | kedro_diff/node_diff.py:122-126 | one line exactly when the old value is non-empty, listing it struck through |
| LegacyNodeDiff.NodeDiff.AttrReport | kedro_diff/node_diff.py:110-131 | the attribute loop body of each branch prints at most one line |
| LegacyNodeDiff.NodeDiff.AttrsReport | kedro_diff/node_diff.py:110-131 | at most one line per attribute, and none exactly when no loop body prints |
| LegacyNodeDiff.NodeDiff.Header | kedro_diff/node_diff.py:111-128 | the header line of each changed branch; LegacyNodeDiff.NodeDiff.DiffLines, LegacyNodeDiff.NewNodeListsValues and LegacyNodeDiff.DeletedNodeListsValues state where it is printed |
| LegacyNodeDiff.NodeDiff.DiffLines | kedro_diff/node_diff.py:103-131 | a changed node prints its header and its attribute lines; an unchanged one, or two missing nodes, print `is unchanged` at verbose level 2 and up |
| LegacyNodeDiff.NodeDiff.DiffAttr | kedro_diff/node_diff.py:93-101 | appends exactly `DiffAttrLines(attr)` to the console |
| LegacyNodeDiff.NodeDiff.ListNewAttrs | kedro_diff/node_diff.py:112-116 | appends exactly the value lines of the new node, in order |
| LegacyNodeDiff.NodeDiff.ListDeletedAttrs | kedro_diff/node_diff.py:122-126 | appends exactly the value lines of the deleted node, in order |
| LegacyNodeDiff.NodeDiff.DiffAttrs | kedro_diff/node_diff.py:130-131 | appends exactly the `diff_attr` lines of every attribute, in order |
| LegacyNodeDiff.NodeDiff.Diff | kedro_diff/node_diff.py:103-131 | appends exactly `DiffLines()` to the console |
| LegacyNodeDiff.BothAbsentReportedUnchanged | kedro_diff/node_diff.py:103-109 | two missing nodes print `is unchanged` at verbose level 2 and up, and nothing below |
| LegacyNodeDiff.DictMethodKeysNeverShown | kedro_diff/node_diff.py:68-91 | a key named like a dict method (`keys`, `items`, ...) never prints a line |
| LegacyNodeDiff.ReportShown | kedro_diff/node_diff.py:110-131 | each attribute whose loop body prints contributes its line to `diff` |
| LegacyNodeDiff.ReportedLineFromAttr | kedro_diff/node_diff.py:110-131 | conversely, every line an attribute loop of `diff` prints comes from one attribute among `attrs` |
| LegacyNodeDiff.AttrsReportAppend | kedro_diff/node_diff.py:110-131 | the lines follow the attribute order: those of `a + b` are those of `a` followed by those of `b` |
| LegacyNodeDiff.NewNodeListsValues | kedro_diff/node_diff.py:110-116 | a new node prints its header and every visible non-empty attribute not named like a dict method |
| LegacyNodeDiff.DeletedNodeListsValues | kedro_diff/node_diff.py:120-126 | a deleted node prints its struck-through name and every visible non-empty attribute |
| LegacyNodeDiff.NoneAgainstEmptyReported | kedro_diff/node_diff.py:93-101 | a missing value against `""` is reported, showing `None` struck through |
| LegacyNodeDiff.ModifiedAgreesWithRewrite | kedro_diff/node_diff.py:127-131 | for two present nodes and present non-`None` values, the older differ prints what the rewrite prints |
| CommitParser.SplitAll | kedro_diff/commit_parser.py:33-36 | no piece holds the separator and there are at least as many pieces as parts |
| CommitParser.SplitAllShrinks | kedro_diff/commit_parser.py:33-36 | splitting never adds characters and removes some when a part holds the separator |
| Strings.Split | kedro_diff/commit_parser.py:28-31 | Python's `str.split` on a non-empty separator: at least one piece and no piece holding the separator; Strings.JoinSplit makes it the inverse of `join` |
| Strings.Join | kedro_diff/commit_parser.py:28-31 | Python's `sep.join`, used to state ranges; Strings.JoinSplit and CommitParser.SplitJoined relate it to `split` |
| Strings.JoinSplit | kedro_diff/commit_parser.py:28-31 | joining the pieces of a split with the same separator gives back the string |
| CommitParser.Finish | kedro_diff/commit_parser.py:38-62 | the three errors exactly when there are no parts, more than two, or an empty last part; otherwise the pair with `HEAD` for a missing or empty first commit |
| CommitParser.ParseCommit | kedro_diff/commit_parser.py:17-66 | returned commits are never empty and never hold `..` |
| CommitParser.PlainParts | kedro_diff/commit_parser.py:32-62 | a tuple without `..` goes straight to the length checks |
| CommitParser.SingleCommit | kedro_diff/commit_parser.py:28-54 | a string without `..` is compared with `HEAD`; the empty string is refused |
| CommitParser.TwoDotRange | kedro_diff/commit_parser.py:28-62 | `A..B` parses like the parts `[A, B]`, for `A` without `..` not ending in a dot and `B` without `..` not starting with one |
| CommitParser.ThreeDotRange | kedro_diff/commit_parser.py:28-62 | `A...B` parses like the parts `[A, B]`, for `A` without `..` not ending in a dot and `B` without `..` |
| CommitParser.SplitRange | kedro_diff/commit_parser.py:28-31 | splitting a range on its separator gives its two ends |
| CommitParser.TupleTwoDotRange | kedro_diff/commit_parser.py:32-36 | the one-word tuple `("A..B",)` parses like `A..B` |
| CommitParser.TupleThreeDotRange | kedro_diff/commit_parser.py:32-36 | the one-word tuple `("A...B",)` parses like `A...B` |
| CommitParser.ManyDotRange | kedro_diff/commit_parser.py:28-45 | commits joined by `..` parse as that tuple of parts, when no part holds `..`, no part but the last ends in a dot and no part but the first is empty or starts with one; three or more parts are too many |
| CommitParser.ParseTupleTests | tests/test_commit_parser.py:12-30 | the plain tuple rows of the test table |
| CommitParser.ParseSingleTests | tests/test_commit_parser.py:24-31 | the single-commit rows, including the refused empty string |
| CommitParser.ParseRangeTest | tests/test_commit_parser.py:16-26 | the range-string rows |
| CommitParser.ParseTupleRangeTest | tests/test_commit_parser.py:18-21 | the one-word tuple range rows |
| CommitParser.ParseChainTest | tests/test_commit_parser.py:28-29 | the rows chaining three and seven commits are refused as too many |
| CommitParser.DottedRangeTest | kedro_diff/commit_parser.py:28-62 | `v1.0..v2.0` and `release-0.17...main`, whose commits hold single dots, parse as their two ends |
| CommitParser.MetadataFileName | kedro_diff/commit_parser.py:79 | the commit with every `/` and space turned into `_`, then `-commit-metadata.json`; no `/` or space is left |
| CommitParser.WrittenMetadataFileName | kedro_diff/get_pipelines.py:40-44 | the writer's name: only `/` turned into `_`, then the same suffix |
| CommitParser.ReaderFindsWriter | kedro_diff/commit_parser.py:79 | the reader's and the writer's names agree exactly when the commit holds no space |
| CommitParser.MetadataNamesCollide | kedro_diff/commit_parser.py:79 | `feat/x` and `feat_x` share one metadata file |
| CommitParser.LoadCommitMetadata | kedro_diff/commit_parser.py:69-93 | succeeds exactly when `parse_commit` does, with its error otherwise, and reads the two files named after the parsed commits |
| CommitParser.PlainCommitFileName | kedro_diff/commit_parser.py:79 | a commit with neither `/` nor space is its own file name, suffixed |
| CommitParser.LoadTwoDotRange | kedro_diff/commit_parser.py:74-93 | `A..B` loads the files of `A` (or `HEAD`) and `B` |
| CommitParser.LoadCommitMetadataTest | tests/test_load_commit_metadata.py:8-104 | for the four `main..X` strings of the test, the two `.kedro-diff/` metadata file names the reader computes, named after `main` and `X`; for `X` without `/` the name is `X` plus the suffix |

## Left out

- Console output and rich rendering: `console.print` is the list of strings printed, markup included; rich's interpretation of the markup is not modelled.
- `stat()` (kedro_diff/diff.py:152-153) only prints `_stat_msg`, which `StatMsg` models.
- Kedro `Node` objects: both differs also accept real node objects, read through `dir` and `getattr`; the model takes nodes as dictionaries only, as the CLI passes them.
- Python's `str()` and `repr()`: `Show` renders strings, lists of strings and `None` as `str()` does for values that need no escaping; a callable prints as a placeholder.
- The text of error messages and all logging; a `KedroDiffError` is one of three `ParseError` values.
- The JSON file reads of `load_commit_metadata` and its `root_dir` argument: the model returns the two paths it would read.
- Node records have a fixed schema: `name`, `inputs`, `outputs` and `tags` are always present, so the `KeyError` kedro_diff/diff.py:93-128 would raise for a node missing one of them is not modelled.
- CommitParser.LoadCommitMetadataTest: tests/test_load_commit_metadata.py:100-102 passes `full_sha=False`, which the signature at kedro_diff/commit_parser.py:69-73 does not accept, so in Python that call raises `TypeError` before any file is read (not executed). The lemma states the file names the reader would compute for the test's strings.
- LegacyNodeDiff.NodeDiff.GetAttr: reading an attribute whose name starts with `_` through `getattr` is not modelled. `attrs` never yields such a name, and on a dict `getattr` would find Python internals such as `__len__` or `__doc__`.
- get_pipelines.py (the git checkouts, subprocesses and file writing), cli.py and logger.py; only the writer's file-name rule is modelled, to compare it with the reader's.
- `example()` in kedro_diff/diff.py:156-195 only prints; its scenarios are those of tests/test_diff.py. It puts the list `["input1"]` where the tests put the string `"input1"`; the model uses the tests' value, and both differ from the sample's value.
- `__main__` blocks of both node differ files.
- Diff.StatOneAttributeChange: tests/test_diff.py:52-72 expect `"2"` and `"-"` in the stat line of one changed attribute, while the code counts one change and one add; the lemma states what the code computes.
- CommitParser.TwoDotRange, ThreeDotRange, TupleTwoDotRange, TupleThreeDotRange and ManyDotRange: stated where the split is the obvious one. `A` holds no `..` and does not end in a dot. For two dots, `B` holds no `..` and does not start with a dot; for three dots, `B` holds no `..`. Chains are restricted in the same way part by part. Single dots inside a commit (`v1.0`) are allowed. Other inputs, such as `a....b`, are covered by the general contract of ParseCommit only.
- CommitParser.ParseChainTest: the chained strings are given as the `..`-join of their words, not as literals.
- LegacyNodeDiff.NodeDiff.Diff: the first branch, guarded by `not self.is_none`, is left out because it is never taken (see Findings).
- Integer widths: Python integers are unbounded, as Dafny's are.

## Findings

| source | as written | input that shows it | evidently intended | confidence | as-written member | corrected member |
|---|---|---|---|---|---|---|
| kedro_diff/node_diff.py:39-40,104-106 | `is_none` is a plain method, so `not self.is_none` negates a bound method and is always false; the `is None` branch is dead and two missing nodes fall through to the unchanged branch | `NodeDiff(None, None, name="verbose_none", verbose_level=2).diff()` prints `verbose_none is unchanged` | two missing nodes print `... is None` at verbose level 2, as kedro_diff/node_diff/node_diff.py:39-41,116-118 does with `is_none` as a property | high, not executed | LegacyNodeDiff.BothAbsentReportedUnchanged | NodeDiff.NodeDiff.DiffLines |
