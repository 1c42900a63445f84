# Xsinfo in Dafny

Xsinfo reads the table that Slurm's `sinfo --Node` prints, one row per
(node, partition) pair. It reports how many idle cpus and how much free
memory each group of nodes offers. Its core is the routine `run_xsinfo`,
which runs these stages in order:

1. **Alias detection** (`get_nodes_info`, `subset_it`). Every pair of partition
   names is visited in sorted order. Two partitions listing exactly the same
   node rows are aliases. The rows of one of them are deleted, and the deleted
   name is recorded under the name that is kept. A partition marked with a
   trailing `*` (the default partition) is kept, and its name is recorded
   without the marker.
2. **Cpu split** (`expand_cpus`). The `A/I/O/T` cpu field becomes an `allocated`
   column and a `cpus_avail` column.
3. **Conversions** (`change_dtypes`):
   - four columns are converted to floats;
   - the memory load is `100*(1 - free/mem)`, clipped at 0;
   - the free memory is turned into whole thousands, rounded down.
4. **Availability filter** (`keep_avail_nodes`). Reserved nodes and nodes
   without an idle cpu are dropped.
5. **Binning** (`bin_loads`). Each load goes into one of the bands `0-25`,
   `25-50`, `50-75` and `75-100`. The bands are right-closed and the lowest
   edge is -1.
6. **Summary** (`summarize`). The rows are sorted by idle cpus, largest first.
   Then, for the cpu load and for the memory load in turn, each non-empty band
   is reported with:
   - the sum of its idle cpus;
   - the sum of its free memory;
   - its partition names, without `*`;
   - its nodes in Slurm's node-list form `c1-[1,2],c2-[5]` (`get_nodes`,
     `format_nodes`).

The model has these modules:

- `Rows`: the rows at each stage.
- `Strings`: splitting, joining, code-point order, `strip('*')`, decimal
  `float()`.
- `CpuState`: stage 2.
- `Aliases`: stage 1. The loop of `get_nodes_info` is a method proved equal to
  a fold over the pairs, `DetectAliases`.
- `Loads`: stages 3 to 5.
- `NodeRange`: `get_nodes` and `format_nodes`, with a parser that reads the
  node list back.
- `Summary`: stage 6.
- `Xsinfo`: `run_xsinfo`.

The stages that mutate a data frame in place are modelled as methods or
functions on sequences, and each returns the new table. The `sinfo` table is
a parameter. The `torque` flag is a parameter too.

Points where the code behaves in a way a reader might not expect, and which
the model follows:

- **Tie-break.** When only one name of a matching pair ends in `*`, the code
  keeps the marked partition's rows and drops the other partition
  (`xsinfo.py:116-123`). `DefaultPartitionSurvives` shows this on `normal*` /
  `optimist`.
- **Node-name split.** `get_nodes` splits a node name at every `-` and takes
  pieces 0 and 1 (`xsinfo.py:194-195`), so `a-b-c` gives the prefix `a` and
  the index `b`.
- **Conversion failures.** A column that `astype(float)` cannot convert raises,
  and the whole run ends (`xsinfo.py:152-155`). No row is skipped. The model
  returns an `Error`.
- **Memory load range.** The clip only raises values to 0
  (`xsinfo.py:156-157`). So the load exceeds 100 when the free memory is
  negative. When the memory size is 0, the load is 0, NaN or infinite,
  depending on the sign of the free memory. Rows with a load above 100, NaN or
  infinity fall in no band. `MemLoadRange` and `BinFloat` state this.

## Model

| member | source | states |
|---|---|---|
| Strings.Split | Xsinfo/xsinfo.py:63 | `str.split(c)` yields at least one piece; no piece holds `c`; every character of a piece comes from the input |
| Strings.JoinSplit | Xsinfo/xsinfo.py:63 | joining the pieces of `split(c)` with `c` gives back the original string |
| Strings.SplitJoin | Xsinfo/xsinfo.py:214-215 | splitting a join of `c`-free pieces at `c` gives back the pieces |
| Strings.SplitFindsSeparator | Xsinfo/xsinfo.py:63 | a split yields a second piece exactly when the separator occurs |
| Strings.Find | Xsinfo/xsinfo.py:214-215 | the position of the first occurrence, or the length when there is none; the node-list reader uses it to locate the `-[` and `]` of each rendered group, and `ParseFloat` to locate the decimal point |
| Strings.LexTransitive | Xsinfo/xsinfo.py:113 | the code-point order `sorted` uses is transitive |
| Strings.LexTotal | Xsinfo/xsinfo.py:113 | two different names are always ordered one way or the other |
| Strings.LexAsymmetric | Xsinfo/xsinfo.py:113 | the order never holds both ways |
| Strings.StripOneStar | Xsinfo/xsinfo.py:117-120 | `name[:-1]` removes exactly the trailing `*` of a marked name and leaves other names alone |
| Strings.StripStars | Xsinfo/xsinfo.py:237 | `strip('*')` removes only the outer runs of `*`: for some `lo`, the name is `lo` markers, then the result, then markers only; the result neither starts nor ends with `*`, and inner `*` stay |
| Strings.TrimLeadingStars | Xsinfo/xsinfo.py:237 | the removed prefix is all `*` and the rest does not start with `*` |
| Strings.TrimTrailingStars | Xsinfo/xsinfo.py:237 | the removed suffix is all `*` and the rest does not end with `*` |
| Strings.ParseFloat | Xsinfo/xsinfo.py:152-155 | `float()` reads a digit string as its decimal value and rejects the empty string |
| Strings.ParseDecimal | Xsinfo/xsinfo.py:152-155 | `float()` reads `w.f`, with digit strings `w` and `f` not both empty, as `w + f / 10^|f|` |
| Strings.ParseSigned | Xsinfo/xsinfo.py:152-155 | a leading `-` or `+` followed by `u` is rejected exactly when `u` is not an unsigned number, and otherwise negates or keeps its value |
| Strings.ParseFloatUnsigned | Xsinfo/xsinfo.py:152-155 | text without a leading sign reads as its unsigned number (`ParseUnsigned`: digits, an optional point, more digits) |
| Strings.ParseNatToString | Xsinfo/xsinfo.py:152 | `float(str(n))` is `n` for every natural `n` |
| CpuState.ExpandRow | Xsinfo/xsinfo.py:63-64 | `allocated` is the first `/` piece; `cpus_avail` is the second piece when there is a `/` and NaN otherwise; the row is unchanged |
| CpuState.ExpandCpus | Xsinfo/xsinfo.py:63-65 | every row is kept, in order, and row `i` of the result is `ExpandRow` of input row `i`: the input row unchanged with its `allocated` and `cpus_avail` columns |
| CpuState.ExpandFourCounts | Xsinfo/xsinfo.py:63-64 | on `A/I/O/T`, `allocated` is `A` and `cpus_avail` is `I` |
| CpuState.ExpandIdleCount | Xsinfo/xsinfo.py:63-64 | on numerals `A/I/O/T`, the `cpus_avail` piece is the numeral of `I`, which `float()` reads as the idle count `I` |
| Aliases.SortedUnique | Xsinfo/xsinfo.py:113 | `sorted(unique())` is strictly increasing and has exactly the input's names |
| Aliases.SortedListsWithSameMembers | Xsinfo/xsinfo.py:113 | two strictly sorted lists with the same members are equal, so the sorted unique list is determined |
| Aliases.CombinationsOfSorted | Xsinfo/xsinfo.py:113 | `combinations(names, 2)` visits every pair `(names[a], names[b])` with `a < b`, and each of its pairs is ordered |
| Aliases.SortedPartitionsMembers | Xsinfo/xsinfo.py:113 | the sorted names are distinct and are exactly the partitions that have rows |
| Aliases.SubsetIt | Xsinfo/xsinfo.py:69-93 | `subset_it`: the rows of one partition, in order, without the partition column, never more rows than the table; `SubsetItEmpty` and `SubsetItSnoc` state which rows |
| Aliases.SubsetItEmpty | Xsinfo/xsinfo.py:88-93 | a partition's sub-table is empty exactly when no row has that partition |
| Aliases.SubsetItSnoc | Xsinfo/xsinfo.py:89-91 | one more row adds its attributes, without the partition column, exactly when it belongs to the partition |
| Aliases.DropPartition | Xsinfo/xsinfo.py:121-122 | no row of the dropped partition remains |
| Aliases.DropPartitionMembers | Xsinfo/xsinfo.py:121-122 | a row survives exactly when it was in the table under another partition |
| Aliases.DropKeepsOtherPartition | Xsinfo/xsinfo.py:121-122 | every other partition keeps its sub-table unchanged |
| Aliases.DropRemovesOnlyPartition | Xsinfo/xsinfo.py:121-122 | the drop deletes exactly the rows of that partition |
| Aliases.TieBreak | Xsinfo/xsinfo.py:116-120 | the partition dropped is the unmarked one when only one name carries `*`, else the first; the key is the other name with its `*` removed |
| Aliases.Step | Xsinfo/xsinfo.py:114-123 | one loop iteration never adds rows and never removes a key of the alias map; `StepRemovesExactlyTheAlias` states what it changes |
| Aliases.Run | Xsinfo/xsinfo.py:113-123 | the loop over a sequence of pairs never adds rows and never removes a key |
| Aliases.DetectAliases | Xsinfo/xsinfo.py:96-124 | `get_nodes_info` over all sorted pairs never adds rows |
| Aliases.RecordIntoEmpty | Xsinfo/xsinfo.py:123 | example: `setdefault(key, []).append(alias)` on an empty map gives a one-entry map |
| Aliases.RunAppend | Xsinfo/xsinfo.py:113-123 | one more pair is one more loop step |
| Aliases.RunConcat | Xsinfo/xsinfo.py:113-123 | running over two stretches of pairs is running over the first, then the second |
| Aliases.VisitPair | Xsinfo/xsinfo.py:114-123 | one iteration of the loop body is one `Step` of the fold |
| Aliases.RunRowPairs | Xsinfo/xsinfo.py:113 | the inner-loop prefix of pairs grows by one step per later name |
| Aliases.VisitLaterNames | Xsinfo/xsinfo.py:113-123 | the inner loop pairs name `i` with every later name, in order |
| Aliases.RunPairsBelow | Xsinfo/xsinfo.py:113 | the outer loop's pairs for the first `i + 1` names are those for the first `i`, then name `i`'s row |
| Aliases.GetNodesInfo | Xsinfo/xsinfo.py:96-124 | the in-place loop leaves the table and alias map that the fold over all sorted pairs computes |
| Aliases.StepRemovesExactlyTheAlias | Xsinfo/xsinfo.py:114-123 | for a matching pair: all rows of the losing name go; every other partition keeps its rows; the loser is appended under the key; other keys are unchanged |
| Aliases.RemovedNeverMatches | Xsinfo/xsinfo.py:115 | a pair with an empty side is never an alias |
| Aliases.RunGrows | Xsinfo/xsinfo.py:123 | the alias map only gains keys, and each key's list only gains entries at its end |
| Aliases.RunKeepsWholePartitions | Xsinfo/xsinfo.py:121-122 | each partition ends with either all of its rows or none |
| Aliases.RunKeepsAbsorbedGone | Xsinfo/xsinfo.py:121-123 | once recorded as an alias, a partition has no rows left |
| Aliases.DetectAliasesOutcome | Xsinfo/xsinfo.py:96-124 | every recorded alias has no rows left, and every partition is either kept whole or removed |
| Aliases.DetectAliasesSound | Xsinfo/xsinfo.py:109-123 | every name `d` recorded under a key `k` had, in the input, the same non-empty rows as some other partition whose name with its trailing `*` removed is `k` |
| Aliases.DetectAliasesComplete | Xsinfo/xsinfo.py:98-122 | two different partitions with the same non-empty rows in the input: after detection at least one of them has no rows left |
| Aliases.DetectAliasesLeavesNoAliases | Xsinfo/xsinfo.py:98-100 | in the reduced table no two different partitions list the same non-empty rows |
| Aliases.CombinationsDistinct | Xsinfo/xsinfo.py:113 | every visited pair joins two different names |
| Aliases.RunSound | Xsinfo/xsinfo.py:113-123 | over pairs of different names, the loop records only names that alias their key in the table it started from |
| Aliases.StepSound | Xsinfo/xsinfo.py:114-123 | one iteration keeps that soundness while every partition is still whole or empty |
| Aliases.PairIndex | Xsinfo/xsinfo.py:113 | in a strictly sorted list, `(names[a], names[b])` with `a < b` has a position among the combinations |
| Aliases.PairVisited | Xsinfo/xsinfo.py:113 | two different partitions with rows are visited as a pair, in one orientation or the other |
| Aliases.RunThroughPair | Xsinfo/xsinfo.py:113-123 | the loop is the pairs before position `m`, the step on pair `m`, then the pairs after it |
| Aliases.EmptyStaysEmpty | Xsinfo/xsinfo.py:121-122 | a partition with no rows never regains rows |
| Aliases.MatchingPairEmptiesOne | Xsinfo/xsinfo.py:114-122 | a pair whose sides have the same non-empty rows when the loop starts ends with one side empty |
| Aliases.StepRespectsSubTables | Xsinfo/xsinfo.py:114-123 | one step depends only on the per-partition sub-tables |
| Aliases.RunRespectsSubTables | Xsinfo/xsinfo.py:113-123 | so does the whole loop |
| Aliases.DetectAliasesIgnoresInterleaving | Xsinfo/xsinfo.py:96-124 | how the rows of different partitions interleave does not change the outcome |
| Aliases.SubsetItConcat | Xsinfo/xsinfo.py:88-93 | the sub-table of a concatenation is the concatenation of the sub-tables |
| Aliases.OneBlockHasPartition | Xsinfo/xsinfo.py:88-93 | a partition missing from one block has its whole sub-table in the other |
| Aliases.SwapPartitionBlocks | Xsinfo/xsinfo.py:96-124 | swapping two blocks of rows with different partitions leaves the alias map unchanged |
| Aliases.Labelled | Xsinfo/xsinfo.py:88-91 | the same node rows listed under one partition have that partition and those attributes |
| Aliases.SubsetItOfLabelled | Xsinfo/xsinfo.py:88-93 | the sub-table of such a block is its rows for its partition and empty for any other |
| Aliases.DropOfLabelled | Xsinfo/xsinfo.py:121-122 | dropping the block's own partition empties it; dropping another leaves it |
| Aliases.DropConcat | Xsinfo/xsinfo.py:121-122 | a drop works block by block, so the surviving rows keep their relative order |
| Aliases.CombinationsOfTwo | Xsinfo/xsinfo.py:113 | two names give the single pair |
| Aliases.TwoPartitionsSubTables | Xsinfo/xsinfo.py:88-93 | with two partitions over the same nodes, both sub-tables are those nodes |
| Aliases.SortedPartitionsOfTwo | Xsinfo/xsinfo.py:113 | two partitions are visited in code-point order |
| Aliases.StepOfSameRows | Xsinfo/xsinfo.py:115-123 | a matching pair drops the loser's rows and records it under the key |
| Aliases.DropOneOfTwo | Xsinfo/xsinfo.py:121-122 | dropping either of two equal blocks leaves the other |
| Aliases.DetectAliasesOfTwo | Xsinfo/xsinfo.py:113-123 | with two partitions, detection is one step on their pair |
| Aliases.TwoEqualPartitions | Xsinfo/xsinfo.py:96-124 | two partitions over the same nodes leave only the winner's rows and the map `{key: [loser]}` |
| Aliases.DefaultPartitionSurvives | Xsinfo/xsinfo.py:116-123 | `normal*` and `optimist` over the same nodes keep the `normal*` rows and give `{"normal": ["optimist"]}` |
| Rows.WithPartition | Xsinfo/xsinfo.py:91 | putting a partition column back on a row without it restores that column and nothing else |
| Loads.MemLoad | Xsinfo/xsinfo.py:156-157 | `100*(1 - free/mem)` clipped at 0: a finite load is never negative |
| Loads.MemLoadRange | Xsinfo/xsinfo.py:156-157 | with positive memory the load is finite, 0 exactly when free memory covers it, at most 100 for non-negative free memory, and otherwise `100*(mem-free)/mem`; zero memory gives NaN exactly when free is 0 and infinity exactly when free is negative |
| Loads.RatioFacts | Xsinfo/xsinfo.py:156 | `1 - free/mem` is `(mem - free)/mem`, and the ratio is at least 1 exactly when free memory covers the total |
| Loads.Thousands | Xsinfo/xsinfo.py:158 | `floor(free / 1000)` is the whole number of thousands below `free` |
| Loads.DeriveRow | Xsinfo/xsinfo.py:152-158 | the untouched columns are copied; the four numeric ones are their `float()`; NaN `cpus_avail` stays NaN; `free_mem` becomes thousands; `mem_load` comes from the free memory as it was before that |
| Loads.ChangeDtypes | Xsinfo/xsinfo.py:141-158 | a missing `cpus_avail` column raises `KeyError`, and an unconvertible `cpus_avail` raises first; any error names a column that does not convert; the run succeeds exactly when every cell converts, and then gives every row converted, in order |
| Loads.IsAvailable | Xsinfo/xsinfo.py:136-137 | a reserved row and a row with 0 idle cpus are never available; a row with a NaN `cpus_avail` is available exactly when it is not reserved |
| Loads.AvailRows | Xsinfo/xsinfo.py:136-138 | only available rows remain, never more than there were |
| Loads.KeepAvailNodes | Xsinfo/xsinfo.py:127-138 | the in-place drop leaves exactly the rows of `AvailRows`, in order |
| Loads.AvailRowsMembers | Xsinfo/xsinfo.py:136-138 | a row remains exactly when it was present and is neither reserved nor without idle cpus |
| Loads.AvailRowsConcat | Xsinfo/xsinfo.py:136-138 | the filter works row by row, so it distributes over concatenation |
| Loads.AvailRowsKeepsAvailable | Xsinfo/xsinfo.py:136-138 | a table of available rows is left unchanged |
| Loads.AvailRowsIdempotent | Xsinfo/xsinfo.py:136-138 | consequence of `AvailRowsKeepsAvailable`: filtering twice is filtering once |
| Loads.Bin | Xsinfo/xsinfo.py:170-173 | a value gets a bin exactly when it lies in `(-1, 100]`, and then lies within that bin's edges |
| Loads.BinFloat | Xsinfo/xsinfo.py:173 | NaN and infinite loads get no bin; a finite load gets one exactly when it lies in `(-1, 100]` |
| Loads.BinUnique | Xsinfo/xsinfo.py:170-173 | the bins do not overlap: a value within a band's edges lands in that band |
| Loads.BinMonotone | Xsinfo/xsinfo.py:170-173 | a larger load never lands in a lower band |
| Loads.BinEdges | Xsinfo/xsinfo.py:170-173 | example: 0 and 25 go to `0-25`, 25.01 to `25-50` and 100 to `75-100`; -1 and anything above 100 go nowhere |
| Loads.WithBands | Xsinfo/xsinfo.py:173 | assigning one bin column sets that column for every row and leaves the rest of the row alone |
| Loads.Cut | Xsinfo/xsinfo.py:173 | `pd.cut` gives one bin per row, and row `i` gets a bin exactly when its load is finite and lies in `(-1, 100]` |
| Loads.Banded | Xsinfo/xsinfo.py:173 | every row is kept, in order, with the cpu-load bin and the memory-load bin that `Cut` gives it |
| Loads.BinLoads | Xsinfo/xsinfo.py:161-173 | every row is kept, in order, and each of its two bin columns is the bin of its load |
| NodeRange.Prefixes | Xsinfo/xsinfo.py:214 | the group prefixes in insertion order, as `nodes.items()` lists them |
| NodeRange.AddNodePrefixes | Xsinfo/xsinfo.py:195 | `setdefault` adds a new prefix at the end, and only if it is new |
| NodeRange.AddNodeLookup | Xsinfo/xsinfo.py:195 | `append` adds the index under its own prefix and changes no other list |
| NodeRange.Dedup | Xsinfo/xsinfo.py:195 | first-seen distinct prefixes: the same members as the input |
| NodeRange.DedupDistinct | Xsinfo/xsinfo.py:195 | and no prefix twice |
| NodeRange.PrefixOf | Xsinfo/xsinfo.py:194-195 | `split('-')[0]` holds no `-` |
| NodeRange.IndexOf | Xsinfo/xsinfo.py:194-195 | `split('-')[1]` holds no `-` and only characters of the name |
| NodeRange.NamePrefixes | Xsinfo/xsinfo.py:193-194 | one prefix per node name, in order |
| NodeRange.GroupNodes | Xsinfo/xsinfo.py:192-196 | `get_nodes` fails only with a node of the input that has no `-` |
| NodeRange.GroupNodesFails | Xsinfo/xsinfo.py:192-196 | `get_nodes` raises exactly when some node name has no `-` |
| NodeRange.GroupNodesError | Xsinfo/xsinfo.py:192-196 | the error names the first node without a `-` |
| NodeRange.GroupNodesKeepsFailure | Xsinfo/xsinfo.py:193-195 | later names never undo an error |
| NodeRange.GetNodes | Xsinfo/xsinfo.py:176-196 | the loop builds the groups the recursive definition gives, or raises the same error |
| NodeRange.GroupNodesSnoc | Xsinfo/xsinfo.py:193-195 | one more dashed name adds its index under its prefix |
| NodeRange.GroupNodesPrefixes | Xsinfo/xsinfo.py:192-196 | the groups' prefixes are the distinct node prefixes in first-seen order |
| NodeRange.GroupNodesLookup | Xsinfo/xsinfo.py:192-196 | each prefix lists the indices of its nodes in table order |
| NodeRange.GroupNodesContents | Xsinfo/xsinfo.py:192-196 | both of the above together |
| NodeRange.GroupNodesDistinct | Xsinfo/xsinfo.py:192-196 | no prefix forms two groups |
| NodeRange.Renderings | Xsinfo/xsinfo.py:214 | one `prefix-[i,j]` string per group, in order |
| NodeRange.Render | Xsinfo/xsinfo.py:214 | `'%s-[%s]'` starts with the prefix, then `-[`, and ends with `]` |
| NodeRange.FormatNodes | Xsinfo/xsinfo.py:214-215 | the node list is empty exactly when there are no groups |
| NodeRange.ParseHead | Xsinfo/xsinfo.py:214 | reading one group off a node list always consumes input |
| NodeRange.ParseHeadOfParts | Xsinfo/xsinfo.py:214 | `p-[body]tail` reads as the group `p` with the pieces of `body`, followed by `tail` |
| NodeRange.ParseHeadOfRender | Xsinfo/xsinfo.py:214 | a rendered group reads back as itself |
| NodeRange.ParseFormatOne | Xsinfo/xsinfo.py:214-215 | one group's node list reads back as that group |
| NodeRange.FormatCons | Xsinfo/xsinfo.py:215 | a node list is the first group, a comma, then the rest |
| NodeRange.ParseFormatCons | Xsinfo/xsinfo.py:214-215 | reading back extends from the tail to one more group |
| NodeRange.ParseFormatNodes | Xsinfo/xsinfo.py:199-216 | `format_nodes` is injective on well-formed groups: its string reads back as exactly those groups |
| NodeRange.AddNodeWellFormed | Xsinfo/xsinfo.py:195 | adding a plain index keeps the groups well formed |
| NodeRange.GroupNodesWellFormed | Xsinfo/xsinfo.py:192-196 | dashed names without `,` or `]` give well-formed groups |
| NodeRange.NodeListRoundTrip | Xsinfo/xsinfo.py:236 | the node list printed for a band reads back as the groups of its node names |
| NodeRange.SplitAtDash | Xsinfo/xsinfo.py:194 | a name `p-x` splits into `p` and `x` |
| NodeRange.GroupNodesAppend | Xsinfo/xsinfo.py:193-195 | grouping a `p-x` name adds `x` under `p` |
| NodeRange.GroupExample | Xsinfo/xsinfo.py:192-196 | example: `c1-1, c1-2, c2-5` give `{c1: [1, 2], c2: [5]}` |
| NodeRange.FormatExample | Xsinfo/xsinfo.py:214-215 | example: those groups render as `c1-[1,2],c2-[5]` |
| Summary.InsertByAvail | Xsinfo/xsinfo.py:229 | inserting a row adds exactly that row |
| Summary.InsertSorted | Xsinfo/xsinfo.py:229 | inserting into a sorted table keeps it sorted |
| Summary.SortByAvail | Xsinfo/xsinfo.py:229 | the sort permutes the rows |
| Summary.SortByAvailSorted | Xsinfo/xsinfo.py:229 | the rows come out in descending idle cpus, NaN last |
| Summary.Summarize | Xsinfo/xsinfo.py:219-239 | the in-place sort leaves a sorted permutation of the rows, and the two summaries are those of the sorted table |
| Summary.BandRows | Xsinfo/xsinfo.py:233 | a band's group holds only rows of that band |
| Summary.BandRowsMembers | Xsinfo/xsinfo.py:233 | a row is in a band's group exactly when it is in the table with that band |
| Summary.BandRowsSorted | Xsinfo/xsinfo.py:229-233 | `groupby` keeps the sorted order within each group |
| Summary.SumsConcat | Xsinfo/xsinfo.py:238-239 | both sums add up over consecutive stretches of rows |
| Summary.SumCpus | Xsinfo/xsinfo.py:238 | the sum of idle cpus, NaN cells skipped, is never negative when no cell is negative |
| Summary.SumFreeMem | Xsinfo/xsinfo.py:239 | the sum of free memory is never negative when no cell is negative |
| Summary.PartitionNames | Xsinfo/xsinfo.py:237 | `set(load_pd.partition)` with `*` stripped has no more names than rows, and at least one when there are rows |
| Summary.PartitionNamesComplete | Xsinfo/xsinfo.py:237 | every row's partition is listed, without `*` |
| Summary.PartitionNamesSound | Xsinfo/xsinfo.py:237 | every listed name is some row's partition without `*` |
| Summary.PartitionNamesUnmarked | Xsinfo/xsinfo.py:237 | no listed name starts or ends with `*` |
| Summary.NodeNames | Xsinfo/xsinfo.py:193 | the group's node column in order |
| Summary.SummarizeBand | Xsinfo/xsinfo.py:233-243 | a band line is labelled with its own band, and computing it fails only on a node without `-` |
| Summary.SummarizeBands | Xsinfo/xsinfo.py:233-243 | the loop over the groups gives at most one line per band, and fails only on a node without `-` |
| Summary.SummarizeBandSucceeds | Xsinfo/xsinfo.py:236 | a band's line can be computed exactly when all its node names carry a `-` |
| Summary.SummarizeBandsSnoc | Xsinfo/xsinfo.py:233-236 | an empty band adds nothing, a failing band ends the run with its error, any other band adds its line |
| Summary.EmptyBandStep | Xsinfo/xsinfo.py:234-235 | a band without rows leaves the lines so far unchanged |
| Summary.FailingBandStep | Xsinfo/xsinfo.py:236 | a band holding a node without `-` ends the dimension with that error |
| Summary.LineBandStep | Xsinfo/xsinfo.py:236-243 | a band whose nodes group as `gs` adds its line: the band, the two sums, the partitions and the node list of `gs` |
| Summary.SummarizeDim | Xsinfo/xsinfo.py:233-243 | the loop over the groups gives the lines of the four bands in order, or the first error |
| Summary.SummarizeBandsKeepsFailure | Xsinfo/xsinfo.py:233-236 | later bands never undo an error |
| Summary.SummarizeBandsSucceeds | Xsinfo/xsinfo.py:233-236 | a dimension fails exactly when some band's node names lack a `-` |
| Summary.NonEmptyBandsMembers | Xsinfo/xsinfo.py:234-235 | the bands reported are exactly those with rows |
| Summary.SummarizeBandsCovers | Xsinfo/xsinfo.py:233-235 | the lines come one per non-empty band; empty groups are skipped |
| Summary.SummarizeBandsEachLine | Xsinfo/xsinfo.py:236-239 | each line is the summary of its band's group |
| Summary.NonEmptyBandsIncreasing | Xsinfo/xsinfo.py:233-235 | skipping empty bands keeps the band order |
| Summary.AllBandsInOrder | Xsinfo/xsinfo.py:171 | the four labels cover every band, in ascending order |
| Summary.DimensionLines | Xsinfo/xsinfo.py:230-243 | a dimension's lines are one per non-empty band, in band order |
| Summary.LineBands | Xsinfo/xsinfo.py:242-243 | the band printed at the start of each line |
| Summary.SummarizeSorted | Xsinfo/xsinfo.py:230-243 | the summary fails exactly when the cpu or the memory dimension fails, and each dimension has at most four lines |
| Xsinfo.RunXsinfo | Xsinfo/xsinfo.py:295-318 | the stages run in the order of `run_xsinfo`, and the result is the composition `Outcome` |
| Xsinfo.Outcome | Xsinfo/xsinfo.py:306-318 | the run stops at once exactly when `torque` is set; a completed run shows a table sorted by idle cpus and no longer than `sinfo` |
| Xsinfo.CompletedStages | Xsinfo/xsinfo.py:311-318 | a completed run's table is the sorted, binned available rows of the converted table, and its map is the alias map |
| Xsinfo.ShownRowOrigin | Xsinfo/xsinfo.py:316-318 | every shown row is an available converted row, with the bins of its loads |
| Xsinfo.ReportRowOrigin | Xsinfo/xsinfo.py:312-318 | every reported row comes from one row of the table left by alias detection, converted, available and binned |
| Xsinfo.AvailableRowsReported | Xsinfo/xsinfo.py:312-318 | conversely, every available row of that table is reported with its bins |
| Xsinfo.DerivedIdleCount | Xsinfo/xsinfo.py:314-316 | an available row whose cpus field is `A/I/O/T` has `cpus_avail == I`, and `I` is not 0 |
| Xsinfo.IdleCountReported | Xsinfo/xsinfo.py:311-318 | a reported node with cpus `A/I/O/T` shows `I` idle cpus, and `I > 0`: fully allocated nodes do not appear |
| Xsinfo.AliasesNotReported | Xsinfo/xsinfo.py:312-318 | no reported row belongs to a partition recorded as an alias |
| Xsinfo.ReportShape | Xsinfo/xsinfo.py:311-318 | the report is sorted by idle cpus and never longer than `sinfo`; each dimension has one line per non-empty band, in band order |
| Xsinfo.ReservedRowsHidden | Xsinfo/xsinfo.py:311-318 | when alias detection leaves only reserved nodes, no row is shown |
| Xsinfo.ReservedAliasStillReported | Xsinfo/xsinfo.py:311-318 | aliases are detected before the availability filter: two partitions over the same reserved nodes still give `{"normal": ["optimist"]}` although no row is shown |

## Left out

- `get_sinfo` (`xsinfo.py:16-45`): running `sinfo` and splitting its output into
  columns is I/O. The table arrives as a parameter of ten text columns. Lines
  with more or fewer than ten fields are therefore not modelled.
- The printing (`show_shared`, `show_sinfo_cpu`, `write_sinfo_cpu`, the headers
  and the `print` calls of `summarize` and `run_xsinfo`) and the optional
  tab-separated file are output. The model stops at the values they print.
- The mean and standard deviation of free memory, rounded to two decimals
  (`xsinfo.py:240-241`): these are floating-point statistics. The sums are
  modelled.
- Floating point in general: the numeric columns are exact reals. The only
  IEEE special values kept are the NaN and infinity that a zero memory size
  produces in `mem_load`. A NaN `cpus_avail` cell is `None`.
- Strings.ParseFloat: models `float()` on plain decimal notation only (an
  optional sign, digits, an optional point). Exponents, `inf`, `nan`,
  underscores and surrounding blanks are rejected, although Python accepts
  them.
- Summary.SortByAvail: `sort_values` uses an unstable quicksort, so the order
  of rows with equal idle cpus is not fixed. The model keeps them in table
  order, which is one order pandas may produce. Every lemma about the report
  uses only the sortedness and permutation facts.
- Summary.PartitionNames: the order of `set(load_pd.partition)` is a hash order,
  so the partition list is modelled as a set and its printed order is not.
- The in-place updates of data frames (`sinfo.drop(..., inplace=True)`, the new
  columns) are modelled as methods and functions that return the new table.
  Aliasing between the caller's frame and the callee's is not modelled, and
  `run_xsinfo` keeps no other reference to those frames.
- An empty table never reaches the core. Empty `sinfo` output still splits
  into one empty line, and the frame constructor of `get_sinfo` raises on it.
  The model treats an empty table as a completed run with nothing to show, and
  its `MissingColumn` error covers only non-empty tables without any `/` in
  their cpus fields.
- The command-line wrapper, `__init__.py` and the version module are outside
  the core.
