# gitdot core, modelled in Dafny

gitdot turns `git log --format="%p -> %h"` output into a Graphviz `dot`
digraph. Each record reads "parent hashes -> commit hash". Consecutive
single-parent commits are condensed, so only merges and branch points stay
visible. This project models that pipeline and proves what each stage
promises.

- **Gathering the log** (`GatherInput`, gather_input.py).
  - A `CommitRangeSecretary` reads commit ranges from standard input, skipping blank lines.
  - A `LastSeenResults` cache answers, for each range, one of three outcomes: the history is followed, defied, or gone beyond.
  - The secretary then runs `git log` only on the ranges that the cache cannot answer. It merges the outputs into a list of unique lines.
  - The three-outcome state machine is a pure function `Follow`. The classes' methods are proved to run it and to compute `Rescan`.
  - What `Rescan` returns is characterised by lemmas: a cache reused as it is, a cache hit, a stale cache, a shorter run, a defied history.
- **Parsing and analysing the graph** (`GraphAnalysis`, graph_analyser.py).
  - `ParseLine` follows `ParsedLine` exactly. This takes Python's `str.strip`, `str.split` and `in`, which `PyStr` models.
  - `GraphAnalyser` is a class. Its fields are the lists `merge_links` and `multi_parent_nodes`, and the dict `one_parent_commits` of `OneParentCommit` objects; the dict is kept as a key sequence in insertion order beside a map.
  - The methods mutate those fields as the source does. They are proved against the functional `Gather` and `Condense` over an abstract `Table`.
  - The error result of `Condense` models the `KeyError` that `_condense_OPCs` raises when a snapshot key was already absorbed.
  - `GraphChains` follows a straight run of commits of any length through gathering and condensing, in the newest-first order `git log` uses.
- **Classifying merge messages** (`MergeCommitInformant`, utils/git/merge_commit_informant.py). The three anchored regular expressions are matched by hand. Lemmas prove that each matcher is sound and complete, and that the three are mutually exclusive. `ParseMergeMessage` builds the `MergeInfo` from them.
- **Writing dot text** (`DotText`, `DotTranslation`, `GraphDotTranslation`).
  - `DotText` holds the `describe_*` line builders. They are identical in dot_translator.py and utils/graph/dot_translator.py (lines 13-23, 37-39 and 48-66 of both), so they are defined once.
  - Each builder has a reader, and the lemmas prove the two round-trip.
  - `DotTranslation.DotTranslator` is the top-level translator over a `GraphAnalyser`.
  - `GraphDotTranslation.DotTranslator` is the translator over a graph whose nodes, edges and predicates are given.
  - Both produce the printed lines as a `seq<string>`, one element per `print` call. Lemmas prove the layout of those lines.

Three behaviours of the code that are easy to miss:

- Parents are split on single spaces (graph_analyser.py:18), so doubled spaces give empty tokens and a root commit, whose `%p` is empty, gives `[""]`.
- A child list keeps duplicates: `add_child` appends without checking (graph_analyser.py:29-30).
- The top-level translator analyses the graph with the dictionary-based `GraphAnalyser` of graph_analyser.py (dot_translator.py:9, 27), not with a graph library.

## Model

| member | source | states |
|---|---|---|
| GraphAnalysis.ParseLine | graph_analyser.py:15-19 | an accepted record's child hash contains no space |
| GraphAnalysis.ParseLineRejects | graph_analyser.py:7-16 | each of the three errors is raised exactly when its condition holds: no "->" anywhere, more than two pieces around "->" in the stripped line, or a space inside the stripped right side |
| GraphAnalysis.ParseLineAccepts | graph_analyser.py:10-19 | an accepted line is two arrow-free pieces around one "->"; the parents joined by single spaces give back the stripped left side, no parent contains a space, and the child is the stripped right side |
| GraphAnalysis.RootCommitHasEmptyParent | graph_analyser.py:18 | an empty left side (a root commit) yields the single parent "" |
| GraphAnalysis.DoubledSpaceParents | graph_analyser.py:18 | a doubled space between parents yields an empty parent token between the two halves |
| GraphAnalysis.MultiParentIffSpace | graph_analyser.py:21-22 | a record is multi-parent exactly when its stripped left side contains a space |
| GraphAnalysis.OneParentCommit.constructor | graph_analyser.py:25-27 | a new entry has the given hash and the one-element child list |
| GraphAnalysis.OneParentCommit.AddChild | graph_analyser.py:29-30 | appends the child and leaves the hash alone |
| GraphAnalysis.GraphAnalyser.constructor | graph_analyser.py:41-44 | the analyser starts with an empty table and empty lists |
| GraphAnalysis.GraphAnalyser.Process | graph_analyser.py:46-58 | both lists are extended by exactly the merge links and merge children of the records, and the table becomes the condensation of the gathered table, with the KeyError key reported, if any |
| GraphAnalysis.GraphAnalyser.GatherLines | graph_analyser.py:47-57 | after the loop, the lists are extended by the records' merge links and merge children, and the table is gathered from all records |
| GraphAnalysis.GraphAnalyser.AddRecord | graph_analyser.py:48-57 | one record extends the lists by its own links and child when it is a merge, and otherwise adds its child to its parent's entry |
| GraphAnalysis.GraphAnalyser.AddMergeRecord | graph_analyser.py:49-51 | a merge appends its child once and one link per parent, in parent order |
| GraphAnalysis.GraphAnalyser.AppendChild | graph_analyser.py:54-55 | a known parent's entry gets the child appended, in place |
| GraphAnalysis.GraphAnalyser.InsertCommit | graph_analyser.py:56-57 | an unknown parent gets a fresh entry, inserted last |
| GraphAnalysis.AddLine | graph_analyser.py:48-57 | a merge record leaves the dict alone; a single-parent record adds only its first parent as a key, leaves every other entry alone, and appends its child to that parent's list (a new list of that child alone when the key is new), keeping the stored hash |
| GraphAnalysis.Gather | graph_analyser.py:47-57 | gathering never drops a key, never changes a stored hash, and only extends each child list at its end |
| GraphAnalysis.GatherStep | graph_analyser.py:47-51 | gathering one more record adds exactly that record's contribution to the table and the lists |
| GraphAnalysis.AddLineFacts | graph_analyser.py:53-57 | adding a record keeps the keys distinct, with non-empty child lists and hashes equal to keys; the total child count grows by one exactly for a single-parent record |
| GraphAnalysis.GatherFacts | graph_analyser.py:47-57 | gathering keeps the table well formed and hash-consistent, and adds one child per single-parent record |
| GraphAnalysis.GatherChildren | graph_analyser.py:53-57 | a hash is a key of the gathered table exactly when some single-parent record names it as parent; its entry lists those records' children in input order |
| GraphAnalysis.GatherKeyOrder | graph_analyser.py:53-57 | from an empty dict, the keys in dict order are the first parents of the single-parent records, each once, in the order each first appears |
| GraphAnalysis.GatherCountsSingleParents | graph_analyser.py:26-57 | from an empty analyser, the total child count equals the number of single-parent records |
| GraphAnalysis.MergeLinksMembership | graph_analyser.py:48-51 | a link is recorded exactly when some merge record has that child and that parent among its parents |
| GraphAnalysis.LinksOfMembership | graph_analyser.py:50-51 | a merge yields one link per parent, in parent order: the k-th link goes from the k-th parent to the child |
| GraphAnalysis.MultiParentChildrenExact | graph_analyser.py:48-49 | a hash is a merge node exactly when some merge record has it as child; merge nodes and single-parent records together number the records |
| GraphAnalysis.GraphAnalyser.CondenseOpcs | graph_analyser.py:60-66 | the dict after the pass is the condensation of the one before it, with the KeyError key reported, if any |
| GraphAnalysis.GraphAnalyser.SnapshotKeys | graph_analyser.py:61 | the snapshot lists the one-child keys in dict order |
| GraphAnalysis.OneChildKeysFacts | graph_analyser.py:61 | snapshot keys are distinct keys, each with exactly one child |
| GraphAnalysis.OneChildKeys | graph_analyser.py:61 | a key is in the snapshot exactly when it is a dict key whose entry has one child |
| GraphAnalysis.GraphAnalyser.CondenseStep | graph_analyser.py:62-66 | one iteration raises exactly when the key is gone, leaving the state as it was; otherwise it performs one absorption |
| GraphAnalysis.GraphAnalyser.PopCommit | graph_analyser.py:64 | the popped object is removed from the dict and keeps its hash and children |
| GraphAnalysis.GraphAnalyser.StoreRenamed | graph_analyser.py:65-66 | the popped object is renamed and stored under the parent key with its children |
| GraphAnalysis.Absorb | graph_analyser.py:62-66 | absorption fails, naming the key, exactly when the key is no longer in the dict; otherwise the table stays well formed, keeps the key and gains no new one |
| GraphAnalysis.AbsorbTakesOver | graph_analyser.py:63-66 | absorbing a distinct child key removes exactly that key, stores its whole child list under the parent with the parent's hash, and leaves every other entry unchanged; the key count drops by one and the total child count by the parent's child count (one for a snapshot key, see CondenseBalance) |
| GraphAnalysis.AbsorbLeavesLeaf | graph_analyser.py:62-63 | a candidate whose only child is not a key is left unchanged |
| GraphAnalysis.AbsorbSelfLoop | graph_analyser.py:63-66 | a self-loop entry is popped and re-inserted last; the counts are kept |
| GraphAnalysis.AbsorbKeepsHashes | graph_analyser.py:65 | every entry's hash still equals its key after an absorption |
| GraphAnalysis.CondenseFrom | graph_analyser.py:61-66 | the pass over a snapshot keeps the table well formed and only removes keys; a `KeyError` names a snapshot key that is no longer in the dict |
| GraphAnalysis.Condense | graph_analyser.py:60-66 | `_condense_OPCs` keeps the table well formed and only removes keys; a `KeyError` names a key that had one child and was absorbed by an earlier turn |
| GraphAnalysis.CondenseKeepsHashes | graph_analyser.py:60-66 | the whole pass keeps every entry's hash equal to its key |
| GraphAnalysis.CondenseBalance | graph_analyser.py:61-66 | over any snapshot of single-child keys, total children minus key count is invariant, and keys never grow |
| GraphAnalysis.CondenseKeepsBalance | graph_analyser.py:60-66 | the pass drops the key count and the total child count together, by the same amount |
| GraphChains.GatherChain | graph_analyser.py:47-57 | gathering the newest-first log of a run of distinct commits keys the dict by every parent, in log order, each holding its own child |
| GraphChains.ChainAbsorb | graph_analyser.py:62-66 | during the pass over such a run, each key takes over its child's entry, which by then holds the newest commit; the older keys keep their entries |
| GraphChains.CondenseChainFrom | graph_analyser.py:61-66 | from any point of that pass, the rest of it ends with the oldest commit as the only key, holding the newest commit, and raises no KeyError |
| GraphChains.NewestFirstChainCollapses | graph_analyser.py:46-66 | the newest-first log of any run of two or more distinct commits condenses to one entry: the oldest commit, with the newest as its only child, and no KeyError is raised |
| GraphAnalysis.OldestFirstChainRaises | graph_analyser.py:61-62 | the oldest-first chain "a -> b", "b -> c" leaves the entry a with child c and raises KeyError on b |
| GatherInput.Follow | gather_input.py:30-39 | the cached ranges only shrink to a prefix; the count never falls, and rises by one exactly when the history is followed |
| GatherInput.FollowOutcomes | gather_input.py:30-39 | each of the three outcomes happens exactly under its condition: beyond history changes nothing; following moves the count up by one; defiance truncates the ranges to the count |
| GatherInput.FollowKeepsBound | gather_input.py:26-39 | the count never exceeds the number of cached ranges |
| GatherInput.DefiedThenBeyond | gather_input.py:31-39 | the call right after a defiance answers beyond history |
| GatherInput.LastSeenResults.constructor | gather_input.py:25-28 | a fresh cache has no ranges, no lines and count 0 |
| GatherInput.LastSeenResults.NextLineFollowsHistory | gather_input.py:30-39 | the outcome and the new fields are those of the state machine Follow |
| GatherInput.NonBlank | gather_input.py:63-67 | there are no more ranges than input lines, and none is empty |
| GatherInput.NonBlankMembers | gather_input.py:63-67 | a range is kept exactly when it is some input line, stripped and not empty |
| GatherInput.NonBlankStep | gather_input.py:64-67 | a blank line is skipped and any other line is kept stripped, in order |
| GatherInput.ConsultAll | gather_input.py:63-72 | the cached ranges only shrink to a prefix and the count never falls; a loop still following kept every cached range; the count stays within the cached ranges |
| GatherInput.ConsultCharacterised | gather_input.py:63-72 | consulting stays on exactly when the ranges agree with the cache from the count on; then the count advances by the agreement; otherwise the state is truncated at the first disagreeing range |
| GatherInput.BeyondCharacterised | gather_input.py:69-72 | beyond history, consulting neither stops nor changes the state |
| GatherInput.StoppedStays | gather_input.py:69-72 | once defied, the cache is no longer consulted |
| GatherInput.AppendAbsent | gather_input.py:89-91 | the earlier lines stay a prefix; the members are those of both lists; distinctness is kept |
| GatherInput.AppendAbsentTail | gather_input.py:89-91 | the appended items are exactly the items of the output not already in the list, each once, in the order of their first occurrence in the output |
| GatherInput.AppendAbsentTwice | gather_input.py:89-91 | merging two outputs one after the other is merging their concatenation |
| GatherInput.MergeLog | gather_input.py:85-91 | an empty list takes the output whole; a non-empty list stays a prefix; the result holds the lines of both |
| GatherInput.ScanAll | gather_input.py:82-91 | a line is in the result exactly when it is in the starting list or in the output of some scanned range |
| GatherInput.Outputs | gather_input.py:82-83 | a line is in the outputs exactly when the output of some range holds it |
| GatherInput.ScanAllAppend | gather_input.py:82-91 | scanning two runs of ranges is scanning the first and then the second |
| GatherInput.ScanAllExtends | gather_input.py:85-91 | from a non-empty list, scanning keeps it as a prefix and keeps distinctness; it holds exactly the old lines and the log lines of every range |
| GatherInput.ScanAllIsOneMerge | gather_input.py:82-91 | onto a non-empty list, scanning several ranges is one merge of all their outputs, concatenated |
| GatherInput.ScanAllTail | gather_input.py:82-91 | onto a non-empty list, the appended lines are exactly the scanned lines not in the list, each once, in the order of first appearance across the outputs |
| GatherInput.CacheReused | gather_input.py:73-91 | a run whose ranges extend the cached ones returns the cached lines, whatever they hold, merged with the outputs of the extra ranges only |
| GatherInput.CacheHit | gather_input.py:74-91 | provided `git log` answers the cached ranges as it did when the cache was saved (one `gitLog` for both runs), rerunning with the cached ranges followed by new ones gives the same lines as a run without a cache |
| GatherInput.StaleCacheHit | gather_input.py:73-91 | when `git log` has changed since the cache was saved, the cached ranges are not asked again: the result is the stale cached lines merged with the new outputs of the extra ranges |
| GatherInput.ShorterRunReusesWholeCache | gather_input.py:75-78 | a run along a prefix of the cached ranges returns the cached lines unchanged |
| GatherInput.DefianceIgnoresCache | gather_input.py:79-80 | after a defiance the cached lines play no part: every range is rescanned from empty |
| GatherInput.CommitRangeSecretary.constructor | gather_input.py:47-53 | a loaded cache is used as is; without one, a fresh empty cache is made |
| GatherInput.CommitRangeSecretary.SaveCache | gather_input.py:55-58 | saving resets the count to 0 |
| GatherInput.CommitRangeSecretary.ParseStdin | gather_input.py:60-97 | the result is the rescan of the old cache over the non-blank ranges; the ranges and the result are stored and the count is reset |
| GatherInput.CommitRangeSecretary.ReadRanges | gather_input.py:61-72 | the loop collects the non-blank ranges and leaves the cache as consulting them leaves it |
| GatherInput.CommitRangeSecretary.ConsultRange | gather_input.py:67-72 | one range is consulted only while the history holds, and defiance stops it |
| GatherInput.CommitRangeSecretary.MergeLogs | gather_input.py:82-91 | the merged lines are those of ScanAll |
| GatherInput.CommitRangeSecretary.AppendItems | gather_input.py:89-91 | the inner loop appends exactly the absent items |
| MergeCommitInformant.LastSlashBefore | utils/git/merge_commit_informant.py:9 | finds the last '/' before a position (not at 0), or proves there is none |
| MergeCommitInformant.OwnerBranch | utils/git/merge_commit_informant.py:9 | a branch found in a word is a non-empty suffix that follows a "/" which is not the word's first character; none is found exactly when there is no "/" between the first and the last character |
| MergeCommitInformant.OwnerBranchSound | utils/git/merge_commit_informant.py:9 | a matched "from" token is owner "/" branch, both non-empty and space-free, with no '/' in the branch except perhaps its last character |
| MergeCommitInformant.OwnerBranchExact | utils/git/merge_commit_informant.py:9 | the captured branch is the text after the last '/' |
| MergeCommitInformant.OwnerBranchFound | utils/git/merge_commit_informant.py:9 | any non-empty owner and branch around a '/' match |
| MergeCommitInformant.PrNumberAndTail | utils/git/merge_commit_informant.py:9 | a match splits the summary into "Merge pull request #", a non-empty run of digits, " from " and the rest |
| MergeCommitInformant.MatchPr | utils/git/merge_commit_informant.py:9 | a match starts with the pull-request prefix, and its number group is non-empty digits |
| MergeCommitInformant.MatchPrSound | utils/git/merge_commit_informant.py:9 | a matched summary is the prefix, number, " from ", owner "/" branch and a rest that starts with whitespace or is empty |
| MergeCommitInformant.MatchPrComplete | utils/git/merge_commit_informant.py:9 | every summary of that shape matches, capturing its number |
| MergeCommitInformant.MatchPrExact | utils/git/merge_commit_informant.py:9 | with a slash-free branch followed by whitespace or the end, the groups are exactly the number and the branch |
| MergeCommitInformant.MatchBranches | utils/git/merge_commit_informant.py:10-11 | a match starts with the prefix, and both groups are non-empty |
| MergeCommitInformant.MatchBranchesSound | utils/git/merge_commit_informant.py:10-11 | a matched summary is the prefix, src "'", " into ", dst and a rest that starts with whitespace or is empty |
| MergeCommitInformant.MatchBranchesComplete | utils/git/merge_commit_informant.py:10-11 | every summary of that shape matches, with exactly src and dst as groups |
| MergeCommitInformant.PatternsExclusive | utils/git/merge_commit_informant.py:9-11 | no summary matches two of the three patterns, so their order never matters |
| MergeCommitInformant.ParseMergeMessage | utils/git/merge_commit_informant.py:24-48 | exactly one of summary and src is set; dst only with src; a summary is the whole commit summary |
| MergeCommitInformant.MergeInformant.ParseCommit | utils/git/merge_commit_informant.py:24-48 | the same for the summary line of the commit the hash names |
| MergeCommitInformant.ParsePullRequest | utils/git/merge_commit_informant.py:30-37 | a pull-request merge gives src "PR #num branch" and no summary; dst is set exactly when a lookup is available, to the lookup of the number |
| MergeCommitInformant.ParsePullRequestFrom | utils/git/merge_commit_informant.py:30-37 | the same, for a summary built from its parts |
| MergeCommitInformant.ParseBranchMerge | utils/git/merge_commit_informant.py:39-48 | a local or origin-tracking branch merge gives exactly src and dst, with no summary |
| MergeCommitInformant.ParseOtherMessage | utils/git/merge_commit_informant.py:42-44 | any other summary is kept as the summary, with no src or dst |
| DotText.ReadDescribeCommit | dot_translator.py:13-17 | a commit line reads back as its hash and fill colour |
| DotText.ReadCommitSound | dot_translator.py:13-17 | every line the reader accepts is a commit line of what it read |
| DotText.CommitFillIff | dot_translator.py:13-17 | the fillcolor attribute is left off exactly when the colour is empty |
| DotText.ReadDescribeLink | dot_translator.py:19-23 | a link line reads back as its two hashes and whether it is highlighted |
| DotText.ReadLinkSound | dot_translator.py:19-23 | every line the reader accepts is a link line of what it read |
| DotText.LinkHighlightIff | dot_translator.py:19-23 | the dashed red style is added exactly when the link is highlighted |
| DotText.DefaultMergeFill | dot_translator.py:51-53 | with the default table {"main": "red"} of lines 37-39, a merge into main is red and any other merge is yellow |
| DotText.MergeLineCloses | dot_translator.py:57-64 | whatever the fill and the label, a merge line ends with the closing `"]` |
| DotText.MergeLineShape | dot_translator.py:55-64 | with a fill, the line is the commit line with its ']' replaced by the label attribute: hash, literal "\n", then the label text |
| DotText.MergeLineWithoutFill | dot_translator.py:55-57 | with an empty fill (a hash not ending in ']'), the label attribute follows the hash directly |
| DotText.LabelOfParsed | dot_translator.py:57-63 | the label is the summary when set, else "src: " and src, plus "\ndst: " and dst only when dst is set |
| DotText.MergeIntoMainLine | dot_translator.py:48-66 | a "Merge branch 'x' into main" commit gets a red box labelled with src x and dst main |
| DotTranslation.ParseAll | dot_translator.py:41-44 | a success has one record per input line; a failure names a line that does not parse |
| DotTranslation.ParseAllSuccess | dot_translator.py:42-44 | all of stdin parses exactly when every line parses |
| DotTranslation.ParseAllValues | dot_translator.py:42-44 | on success, the records are the parses of the lines, one for one, in order |
| DotTranslation.ParseAllFailure | dot_translator.py:43-44 | on failure, the error is that of the first line that does not parse |
| DotTranslation.ParseAllFailureSticks | dot_translator.py:43-44 | a failure in a prefix is the failure of the whole input |
| DotTranslation.DotTranslator.constructor | dot_translator.py:26-30 | a new translator has a fresh, empty analyser, the given informant and the given colour table |
| DotTranslation.DotTranslator.ParseStdin | dot_translator.py:41-46 | a bad line raises before the analyser is touched; otherwise the analyser processes all records, with the KeyError key reported, if any |
| DotTranslation.DotTranslator.PrintTranslation | dot_translator.py:68-83 | the printed lines are Translation of the analyser's lists and table |
| DotTranslation.DotTranslator.EmitMergeNodes | dot_translator.py:72-74 | one merge description per merge node, in order |
| DotTranslation.DotTranslator.EmitLinks | dot_translator.py:76-78 | one plain link line per merge link, in order |
| DotTranslation.DotTranslator.EmitOpcEdges | dot_translator.py:80-82 | one highlighted line per child of each entry, entries in dict order |
| DotTranslation.DotTranslator.EmitChildEdges | dot_translator.py:81-82 | one highlighted line per child of one entry, from the entry's hash |
| DotTranslation.MergeNodeLinesAt | dot_translator.py:72-74 | the i-th node line describes the i-th merge node |
| DotTranslation.LinkLinesAt | dot_translator.py:76-78 | the i-th link line describes the i-th link |
| DotTranslation.ChildEdgesAt | dot_translator.py:81 | an entry yields one edge per child, from its hash |
| DotTranslation.OpcEdgesCount | dot_translator.py:80-82 | there are as many highlighted edges as children in the table |
| DotTranslation.OpcEdgesMembers | dot_translator.py:80-82 | an edge is highlighted exactly when its parent is a key and its child is among that key's children |
| DotTranslation.HighlightedEdgesOfLog | dot_translator.py:80-82 | for a processed log, the highlighted edges are exactly the condensed parent-child pairs |
| DotTranslation.Translation | dot_translator.py:68-83 | the printout has six fixed lines and one per merge node, merge link and single-parent edge |
| DotTranslation.TranslationFrame | dot_translator.py:69-83 | 6 + merge nodes + merge links + table children lines: the three header lines, blank lines after the nodes and after the links, and "}" last |
| DotTranslation.MergeNodeSection | dot_translator.py:72-74 | after the header, one merge description per merge node, in order |
| DotTranslation.PlainEdgeSection | dot_translator.py:76-78 | after the first blank line, one plain link line per merge link, in order |
| DotTranslation.HighlightedSection | dot_translator.py:80-82 | after the second blank line, one highlighted line per table edge, in order |
| GraphDotTranslation.DotTranslator.constructor | utils/graph/dot_translator.py:26-30 | the translator keeps the given informant and colour table |
| GraphDotTranslation.DotTranslator.PrintTranslation | utils/graph/dot_translator.py:68-83 | the printed lines are GraphTranslation of the nodes, edges and predicates |
| GraphDotTranslation.DotTranslator.EmitNodes | utils/graph/dot_translator.py:72-77 | one line per node: merge description or white box |
| GraphDotTranslation.DotTranslator.EmitEdges | utils/graph/dot_translator.py:79-82 | one line per edge, highlighted by the predicate |
| GraphDotTranslation.GraphNodeLinesAt | utils/graph/dot_translator.py:72-77 | the i-th node line describes the i-th node |
| GraphDotTranslation.GraphEdgeLinesAt | utils/graph/dot_translator.py:79-82 | the j-th edge line describes the j-th edge |
| GraphDotTranslation.GraphTranslation | utils/graph/dot_translator.py:68-83 | the printout has five fixed lines and one per node and per edge |
| GraphDotTranslation.GraphTranslationLayout | utils/graph/dot_translator.py:68-83 | header, then one line per node (a merge description exactly for merge commits, else a white box), a blank line, one line per edge highlighted iff squashed, and "}" |
| GraphDotTranslation.PlainNodeReads | utils/graph/dot_translator.py:75-76 | a non-merge node's line reads back as its hash with fill "white" |
| GraphDotTranslation.EdgeReads | utils/graph/dot_translator.py:79-82 | an edge's line reads back as its two hashes, highlighted exactly when squashed |
| PyStr.StripIsCore | graph_analyser.py:10 | stripping removes exactly a whitespace margin on each side, leaving a core that neither starts nor ends with whitespace |
| PyStr.JoinSplit | graph_analyser.py:18 | joining the split pieces with the separator gives the string back |
| PyStr.SplitPiecesFree | graph_analyser.py:10 | no split piece contains the separator |
| PyStr.SplitSingleIff | graph_analyser.py:10-12 | the split has one piece exactly when the separator does not occur |
| PyStr.ContainsStrip | graph_analyser.py:7-10 | stripping does not change whether a space-free substring occurs |
| PyStr.DoubledSeparator | graph_analyser.py:18 | a doubled separator yields an empty piece |
| PyStr.SplitOnCharAgrees | graph_analyser.py:18 | splitting on one character agrees with a character-by-character reference split |

## Left out

- Standard input and `print` are not modelled as I/O. Standard input is a `seq<string>` argument, and the printed lines are a returned `seq<string>`, one element per `print` call.
- `git_log_output` (gather_input.py:10-17) runs a subprocess. It is the function parameter `gitLog`, which gives the output lines of one range.
- Pickle persistence of the cache (gather_input.py:47-58) is modelled only partly. The constructor takes the loaded cache or none, and `SaveCache` keeps only the reset of the count; the file itself is not modelled.
- GitPython's `Repo` and `commit.summary` (utils/git/merge_commit_informant.py:21, 27-28) are not modelled. They are the function `summaryOf` of `MergeInformant`.
- pr_secretary.py, the GitHub lookup, is the optional function `prLookup`. `None` means the secretary cannot look.
- Reading branch_colours.json (dot_translator.py:32-36) is not modelled. The colour table is a constructor argument, as a `map<string, string>`; JSON values that are not strings are not modelled. `DefaultColours` is the table the code uses without that file.
- The graph-library analyser that utils/graph/dot_translator.py imports is not part of this model. Its `graph.nodes`, `graph.edges`, `is_merge_commit` and `is_squashed_link` are arguments of `GraphDotTranslation.DotTranslator.PrintTranslation`.
- test_graph_analyser.py tests that graph-library analyser, so its expectations are not stated here.
- The following files are not part of this model: gitdot.py, query_descendant.py, pincer_log_ranges.py, and the `printerr` helper.
- Python's `\d` also matches non-ASCII decimal digits. The model matches ASCII digits only. `\s` and `\S` use the whitespace set of Python's `str.isspace`, which `PyStr.IsSpace` lists in full.
- dot_translator.py:10 imports `MergeInfo` and `MergeInformant` from a top-level merge_commit_informant module, which is not part of this model. The model takes it to be utils/git/merge_commit_informant.py.
- Python's exceptions become results.
  - A malformed line becomes a `ParseError`, and `ParseStdin` returns the first one as `BadLine`.
  - The `KeyError` of graph_analyser.py:62 becomes `MissingKey`, and the table is left as the pass left it when the error was raised.
- CacheHit: states the equality with a full rescan only when `git log` answers each cached range as it did when the cache was saved, since one `gitLog` serves both runs. The code keys the cache on the range text alone (gather_input.py:73-78) and never notices a changed repository; `StaleCacheHit` states what it returns then.
- In parse_stdin, the merged list aliases the cached list (gather_input.py:78, 91). The model computes the same value without sharing, and nothing else reads the cached list before it is overwritten at line 93.
