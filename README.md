# Partitioned transmission trees in Dafny

This project models the core of BEASTlier, a BEAST 2 package that infers
who infected whom in an outbreak. BEASTlier works on a *partitioned tree*:
a binary phylogeny in which every node carries a partition element number,
the index of the host (clinical case) whose infection that part of the
tree belongs to. The project also models the `MPCTree.py` summariser, which
picks the maximum parent credibility transmission network from a trace of
sampled networks.

The model covers:

- **Tree core** (`tree_core.dfy`). Node records sit in an array indexed by
  node number, with parent `-1` marking the root. On top of that sit the
  ancestor walk `Up`, acyclicity, and the ancestor-recolouring walk shared
  by the operators.
- **Partitioned trees** (`partitioned_tree.dfy`, `partitioned_tree_node.dfy`,
  `element_list.dfy`, `decimal.dfy`). `PartitionedTree` covers
  `processTraits`, the element list lookups, `timesAreValid`, tips and
  nodes in an element, `isRootBlockedBy`, `checkPartitionIntegrity`,
  `storeNodes`/`store` and `numberInternalNodes`. `PartitionedTreeNode`
  covers its setters, `shallowCopy`, `copy` and `assignFrom`.
- **`RandomPartition`** (`random_partition.dfy`). `fillDownTree` and the
  forced-by-topology test.
- **`EpidemiologicalPartitionedTree`** (`epidemiological_tree.dfy`). The
  initialisation checks, the sentinel infection heights and times,
  `getInfector`, `identifyChangedTreelets`, `countNodesInPartition`, and
  `store`/`restore`.
- **The outbreak** (`outbreak.dfy`, `category_set.dfy`). `ClinicalCase`,
  `Outbreak` (the ever-infected list and the state/string maps), and
  `CategorySet` (parsing of the case-to-distribution string, creation of
  fixed distributions, and clean-up).
- **Operators** (`tree_edits.dfy`, `second_type_*.dfy`,
  `transmission_exchange_*.dfy`, `didelot_subtree_slide.dfy`,
  `wilson_balding.dfy`). `SecondTypeFlipper`, `SecondTypeExchange`,
  `SecondTypeWrapper`, both `TransmissionExchangeA` versions,
  `TransmissionExchangeB` and `ThirdTypeExchangeB`, `DidelotSubtreeSlideA`
  and `TransmissionWilsonBaldingA`. The model covers their deterministic
  parts: the init checks, the candidate and eligibility filters, the
  exchanges and recolourings, and the rejections.
- **`MPCTree.py`** (`mpc_tree.dfy`). Reading the header, counting parents
  per host after burn-in, scoring networks by log parent credibility, and
  selecting the first best network with its credibilities.

Random draws are parameters of the operations. The natural logarithm is a
function parameter constrained to behave as a logarithm. Floating-point
heights are `real`.

## Model

| member | source | states |
|---|---|---|
| MpcTree.HeaderIndex | beast1/MPCTree.py:79-82 | the header is the first row that is not a comment; running out of rows is StopIteration, an empty row is IndexError; every row before it is a comment |
| MpcTree.SkipComments | beast1/MPCTree.py:10-13 | the reader loop finds exactly the row HeaderIndex names, or fails the same way |
| MpcTree.RemoveFirst | beast1/MPCTree.py:85 | `list.remove` succeeds iff the value occurs, and drops only its first occurrence |
| MpcTree.HostList | beast1/MPCTree.py:84-89 | the host list exists iff the header has a "state" column and has one entry fewer than the header |
| MpcTree.GetHostList | beast1/MPCTree.py:76-89 | getHostList returns the header's host list, or the header search's error |
| MpcTree.StripSuffixes | beast1/MPCTree.py:86-88 | the loop over the header replaces each name by itself without its `_infector` suffix, keeping the order |
| MpcTree.StripInfectorInverse | beast1/MPCTree.py:87-88 | cutting the 9-character "_infector" suffix recovers the host name |
| MpcTree.TraceHeader | beast1/MPCTree.py:84-89 | a trace header is "state" followed by each host name with "_infector" appended |
| MpcTree.HostListRoundTrip | beast1/MPCTree.py:84-89 | reading the host list back from a trace header gives the hosts, in column order |
| MpcTree.RetainedByStateNumber | beast1/MPCTree.py:120-123 | in state mode, a row whose state column is the decimal text of n is kept iff n >= burnin |
| MpcTree.KeptRows | beast1/MPCTree.py:117-125 | the kept rows are rows of the trace, at most as many as were read |
| MpcTree.KeptRowsInLineMode | beast1/MPCTree.py:118-121 | in line mode the kept rows are exactly the rows from row number burnin onwards, in order |
| MpcTree.FreshTables | beast1/MPCTree.py:102-109 | one table per host in host order, each with a zero counter for every host name and for "Start" |
| MpcTree.InitGuesses | beast1/MPCTree.py:102-109 | the two loops build exactly the fresh tables |
| MpcTree.AddRowErrSticks | beast1/MPCTree.py:126-129 | once a column of a row fails, counting further columns keeps that error |
| MpcTree.TallyErrSticks | beast1/MPCTree.py:117-133 | once a row fails, reading further rows keeps that error |
| MpcTree.BumpTables | beast1/MPCTree.py:127-129 | the innermost loop adds one to parent p in every table named after the column's host; a missing counter is KeyError, or TypeError when p is `name` (the table's own name string plus 1) |
| MpcTree.ParentNameIsTypeError | beast1/MPCTree.py:127-129 | with no host called `name`, a parent cell `name` makes the host's tables raise TypeError, since each table holds its own name under that key (MPCTree.py line 104) |
| MpcTree.CountRow | beast1/MPCTree.py:126-129 | the column loop counts the row's columns one by one; a column past the hosts is IndexError when there is a table to test it against, and with no hosts every column is passed over |
| MpcTree.AddRowNoHosts | beast1/MPCTree.py:126-129 | with no hosts, any row's columns leave the (empty) tables as they were and raise nothing |
| MpcTree.TallyNoHosts | beast1/MPCTree.py:117-133 | with no hosts, the reading loop fails exactly when the burn-in test fails on some row, and otherwise ends with no tables |
| MpcTree.GetGuesses | beast1/MPCTree.py:92-134 | getGuesses returns the tables after every row, with the burn-in rule applied: a missing header line or data row is StopIteration, a state column that is not an integer fails, an over-long row is IndexError only when some table exists, and an uncounted parent is KeyError (TypeError for `name`) |
| MpcTree.AddRowEffect | beast1/MPCTree.py:126-129 | with distinct hosts, a counted row adds exactly one to its parent's counter in each host's table and changes nothing else |
| MpcTree.BumpAllEffect | beast1/MPCTree.py:127-129 | counting parent p in host j's column changes only host j's counter for p |
| MpcTree.CountsKeptStep | beast1/MPCTree.py:125-129 | counting one more kept row keeps every counter equal to the number of kept rows with that parent in that column |
| MpcTree.OccSnoc | beast1/MPCTree.py:125-129 | a further kept row raises the occurrence count of its own parent value only |
| MpcTree.TallyCounts | beast1/MPCTree.py:117-133 | after the trace, host k's counter for p is the number of kept rows whose column k+1 is p |
| MpcTree.ParentList | beast1/MPCTree.py:106-109 | the parent keys are the host names and "Start", each listed once |
| MpcTree.OccSum | beast1/MPCTree.py:125-129 | occurrences over all counted parents add up to the kept rows that have that column |
| MpcTree.GuessesSumToKept | beast1/MPCTree.py:125-129 | each host's counters sum to the number of kept rows that have its column (all kept rows when each has every column) |
| MpcTree.CountsSumToLong | beast1/MPCTree.py:125-129 | tables that count the kept rows sum, per host, to the kept rows long enough for that host's column |
| MpcTree.TablesBounded | beast1/MPCTree.py:117-133 | no counter exceeds the number of rows read |
| MpcTree.NetworkOf | beast1/MPCTree.py:32-34 | the dictionary of a kept row has exactly the column names as keys |
| MpcTree.NetworkOfDistinct | beast1/MPCTree.py:33-34 | with distinct column names each name maps to its own column's value |
| MpcTree.ReadNetwork | beast1/MPCTree.py:32-35 | a row shorter than the columns is IndexError; otherwise the row's dictionary |
| MpcTree.Networks | beast1/MPCTree.py:23-40 | every collected network has a value for every column |
| MpcTree.NetworksAreKept | beast1/MPCTree.py:23-35 | mpcTree keeps the same rows as getGuesses: one network per kept row, in order, built from that row |
| MpcTree.NetworksErrSticks | beast1/MPCTree.py:23-40 | once a row fails, reading further rows keeps that error |
| MpcTree.ReadStates | beast1/MPCTree.py:17-40 | the reader loop of mpcTree collects exactly the networks of the kept rows |
| MpcTree.TermErrSticks | beast1/MPCTree.py:46-48 | once a table lookup fails, later tables keep the error |
| MpcTree.ScoreErrSticks | beast1/MPCTree.py:43-49 | once a host's term fails, later hosts keep the error |
| MpcTree.ScoreNetwork | beast1/MPCTree.py:42-50 | the loop over the hosts sums their terms into the network's total log parent credibility, stopping at the first host whose term fails |
| MpcTree.HostTerm | beast1/MPCTree.py:45-48 | the loop over the tables gives ln(count / totalStates) from the last table named after the host (0 when none is), KeyError or TypeError for a missing counter and ValueError for a zero count |
| MpcTree.ScoresOf | beast1/MPCTree.py:41-50 | one score per network, each the network's own score |
| MpcTree.ScoresErrSticks | beast1/MPCTree.py:41-50 | once a network's scoring fails, the remaining networks keep the error |
| MpcTree.ScoreStates | beast1/MPCTree.py:41-50 | the scoring loop scores every kept network |
| MpcTree.FirstMax | beast1/MPCTree.py:51-57 | the selected index is none iff there are no networks; otherwise no score exceeds it and every earlier score is strictly lower (first strict maximum) |
| MpcTree.SelectBest | beast1/MPCTree.py:51-57 | the selection loop keeps the first network with the highest score |
| MpcTree.ParentsOf | beast1/MPCTree.py:62-63 | the output has one parent per host |
| MpcTree.HostCredsErrSticks | beast1/MPCTree.py:67-69 | once a credibility lookup fails, later tables keep the error |
| MpcTree.CredsErrSticks | beast1/MPCTree.py:66-69 | once a host's credibility fails, later hosts keep the error |
| MpcTree.Credibilities | beast1/MPCTree.py:64-69 | the two loops collect count/totalStates of the chosen parent for every table named after each host; a missing counter is KeyError, or TypeError for the parent `name`; a host named `TLPC`, whose cell by then holds the score, is KeyError at its first table |
| MpcTree.ScoreKeyCreds | beast1/MPCTree.py:50-69 | the host named `TLPC` gets credibility cells iff no table carries its name, and then none |
| MpcTree.ScoreKeyHostFails | beast1/MPCTree.py:50-69 | a host named `TLPC` makes the summary fail whenever some table carries that name, since its parent cell is the score by then |
| MpcTree.MpcTreeSummary | beast1/MPCTree.py:6-73 | mpcTree reads the kept networks, scores them, keeps the first best one and reports its parents and credibilities, failing as the source does on a missing header, no data rows, a bad state number, an uncounted parent, a host named `TLPC` with a table, or no kept network while there are hosts |
| MpcTree.SummarizeStates | beast1/MPCTree.py:41-69 | scoring, selection and output cells of the kept networks, with the same failures: an uncounted parent, the `TLPC` host with a table, no best network among hosts, too few credibility cells |
| MpcTree.LnOne | beast1/MPCTree.py:48 | a logarithm maps 1 to 0 |
| MpcTree.ProdPositive | beast1/MPCTree.py:48 | a product of positive counts is positive |
| MpcTree.LogOfProduct | beast1/MPCTree.py:42-49 | the sum of ln(count/totalStates) is ln of the product of the counts, less hosts times ln(totalStates) |
| MpcTree.LnRatio | beast1/MPCTree.py:48 | ln(c/total) = ln c - ln total |
| MpcTree.ScoreOrderIsProductOrder | beast1/MPCTree.py:42-57 | for equally many positive counts, scores compare as the products of the counts do |
| MpcTree.TermValue | beast1/MPCTree.py:45-48 | a host's term is ln(count/totalStates) of the last table named after it, and that count is positive |
| MpcTree.HostCounts | beast1/MPCTree.py:43-48 | one count per host after the state column |
| MpcTree.ScoreIsSumLn | beast1/MPCTree.py:42-50 | a network's score is the sum of ln(count/totalStates) over positive counts |
| MpcTree.MostCredible | beast1/MPCTree.py:41-57 | the selected network has the largest product of parent counts, and every earlier network a strictly smaller one: it is the first most credible network |
| MpcTree.NoKeptRowsFails | beast1/MPCTree.py:52-63 | with hosts to report and no kept row, building the output fails, since the best network is still None |
| MpcTree.HostCredsCells | beast1/MPCTree.py:67-69 | each credibility cell is count/totalStates for a table named after the host |
| MpcTree.CredsInRange | beast1/MPCTree.py:64-69 | when no counter exceeds totalStates and every term is defined, every credibility lies in (0,1] |
| MpcTree.TermPositive | beast1/MPCTree.py:46-48 | a defined term has a positive counter for the parent in every table named after the host |
| MpcTree.ScoreOkBelow | beast1/MPCTree.py:43-49 | a network that scores over all hosts scores over every prefix of them |
| MpcTree.CredibilityInRange | beast1/MPCTree.py:41-69 | with getGuesses' own tables, every credibility mpcTree reports lies in (0,1] |
| MpcTree.SummaryInRange | beast1/MPCTree.py:64-69 | every credibility of a summary lies in (0,1] when no counter exceeds the total |
| MpcTree.StripInfector | beast1/MPCTree.py:86-88 | a name ending in "_infector" loses exactly that suffix; any other name is kept as it is |
| MpcTree.Term | beast1/MPCTree.py:45-48 | a host with no table named after it contributes 0; the only failures are a missing counter (KeyError, or TypeError exactly when the parent is `name`, whose lookup finds the table's name string) and ln of 0 (ValueError) |
| MpcTree.Score | beast1/MPCTree.py:42-49 | scoring a network fails only with a KeyError, a TypeError or a ValueError |
| MpcTree.ScoreTypeError | beast1/MPCTree.py:42-49 | scoring a network raises TypeError only when some host's parent in it is `name` |
| MpcTree.ScoreTermsDefined | beast1/MPCTree.py:42-49 | a network that scores has every host's term defined |
| MpcTree.TallyAll | beast1/MPCTree.py:100-133 | getGuesses' reading loop yields the tally, from fresh tables, of every row after the header line, stopping at the first row whose burn-in test or counting fails |
| MpcTree.TallyRow | beast1/MPCTree.py:118-129 | one pass of getGuesses' loop advances the tally by exactly the next row: skipped by the burn-in, or counted column by column |
| MpcTree.ReadRow | beast1/MPCTree.py:24-35 | one pass of mpcTree's reading loop advances the networks by exactly the next row |
| MpcTree.HostCredsInRange | beast1/MPCTree.py:66-69 | with no counter above totalStates and the host's term defined, each of the host's credibility cells lies in (0,1] |
| MpcTree.NoNetworks | beast1/MPCTree.py:30-35 | when no row is kept, no network is collected |
| MpcTree.NoNetworkFails | beast1/MPCTree.py:51-63 | with no network the best one stays None, and reading its parents for a non-empty host list fails |
| MpcTree.NoKeptRowsSummary | beast1/MPCTree.py:23-63 | over the rows after the header line, no kept row makes the summary fail for a non-empty host list |
| Decimal.DigitChar | beast1/MPCTree.py:123 | a digit value 0..9 is written as the decimal digit character of that value |
| Decimal.NatDigits | beastlier/src/beast/evolution/tree/PartitionedTree.java:781 | a natural number is written as a nonempty run of digits without a leading zero |
| Decimal.IntToString | beastlier/src/beast/evolution/tree/PartitionedTree.java:781 | `String.valueOf(int)` is nonempty and starts with '-' exactly for negative numbers |
| Decimal.SkipBlanks | beast1/MPCTree.py:123 | skipping leading blanks leaves a text no longer than before that starts with no blank |
| Decimal.SkipBlanksSuffix | beast1/MPCTree.py:123 | what is skipped is a run of blanks at the front, and the rest is the text's remaining suffix |
| Decimal.DropTrailingBlanks | beast1/MPCTree.py:123 | dropping trailing blanks leaves a text no longer than before that ends with no blank |
| Decimal.DropTrailingPrefix | beast1/MPCTree.py:123 | what is dropped is a run of blanks at the end, and the rest is the text's prefix |
| Decimal.Trim | beast1/MPCTree.py:123 | a text of blanks only trims to the empty text |
| Decimal.Unsigned | beast1/MPCTree.py:123 | the digits part of a trimmed numeral is no longer than it and starts with one of its characters |
| Decimal.ParseIntNeedsDigit | beast1/MPCTree.py:123 | Python 2's `int()`: a result needs a digit in the text, and a text of blanks only is a ValueError; ParsePadded gives the accepted forms |
| Decimal.TrimmedChar | beast1/MPCTree.py:123 | every character of the trimmed text comes from the original text |
| Decimal.SkipPrefix | beast1/MPCTree.py:123 | blanks in front do not change what skipping leaves |
| Decimal.DropSuffix | beast1/MPCTree.py:123 | blanks at the end do not change what dropping leaves |
| Decimal.TrimPadded | beast1/MPCTree.py:123 | blanks around a text that starts and ends with no blank are trimmed away exactly |
| Decimal.SignedCore | beast1/MPCTree.py:123 | a sign, blanks and digits form a trimmed numeral whose digits part is the digits |
| Decimal.ParseTrimmed | beast1/MPCTree.py:123 | a text whose trimmed form has a digits part reads as that part's value, negated after a minus sign |
| Decimal.ParsePadded | beast1/MPCTree.py:123 | blanks, an optional sign, blanks after a sign, at least one digit and blanks read as the digits' value, negated after a minus sign |
| Decimal.ParsePaddedIntToString | beast1/MPCTree.py:123 | what `String.valueOf` writes, with blanks around it such as a line's newline, reads back as the number |
| Decimal.NatDigitsValue | beastlier/src/beast/evolution/tree/PartitionedTree.java:781 | the digits written for n read back as n |
| Decimal.ParseIntToString | beast1/MPCTree.py:123 | parsing what `String.valueOf` writes gives back the number |
| ElementList.LexLessIrreflexive | beastlier/src/beast/evolution/tree/PartitionedTree.java:211 | the string order used by the sort is irreflexive |
| ElementList.LexLessTransitive | beastlier/src/beast/evolution/tree/PartitionedTree.java:211 | the string order is transitive |
| ElementList.LexLessTotal | beastlier/src/beast/evolution/tree/PartitionedTree.java:211 | any two distinct strings are ordered |
| ElementList.Insert | beastlier/src/beast/evolution/tree/PartitionedTree.java:204-211 | adding a value to a strictly sorted list keeps it strictly sorted and adds exactly that value |
| ElementList.SortedDistinct | beastlier/src/beast/evolution/tree/PartitionedTree.java:204-211 | processTraits' element list is strictly sorted and holds exactly the trait values that occur |
| ElementList.SortedUnique | beastlier/src/beast/evolution/tree/PartitionedTree.java:204-211 | the element list depends only on the set of trait values |
| ElementList.TypeFromString | beastlier/src/beast/evolution/tree/PartitionedTree.java:292-297 | getTypeFromString is the first index holding the name, or -1 exactly when the name is absent |
| ElementList.TypeString | beastlier/src/beast/evolution/tree/PartitionedTree.java:281-286 | getTypeString succeeds exactly for indices inside the list, and returns an element |
| ElementList.NameRoundTrip | beastlier/src/beast/evolution/tree/PartitionedTree.java:281-297 | name to index to name gives back every element name |
| ElementList.IndexRoundTrip | beastlier/src/beast/evolution/tree/PartitionedTree.java:281-297 | index to name to index gives back every index, as the list has no repeats |
| TreeCore.UpDistinct | beastlier/src/beastlier/operators/SecondTypeFlipper.java:88-93 | in a tree the nodes of a parent chain are pairwise distinct until the chain leaves the tree, so the upward walks end |
| TreeCore.ChildNotAbove | beastlier/src/beast/evolution/operators/TransmissionExchangeA.java:187-193 | a child never lies on its parent's chain of ancestors |
| TreeCore.RunCharacterization | beastlier/src/beastlier/operators/SecondTypeFlipper.java:88-93 | the run the recolouring walk covers: its first L nodes are in the tree, are not `limit` and carry the old element, and the walk stops right after them |
| TreeCore.RepaintedAt | beastlier/src/beastlier/operators/SecondTypeFlipper.java:88-93 | recolouring touches exactly the maximal upward run of the old element: those nodes take the new element (and the dirty mark when asked) and every other node is unchanged |
| TreeCore.PaintRun | beastlier/src/beastlier/operators/SecondTypeExchange.java:57-62 | the shared ancestor-recolouring loop leaves the array equal to the repainted tree |
| TreeCore.PaintStep | beastlier/src/beastlier/operators/SecondTypeFlipper.java:89-92 | one turn of the loop paints the next node of the chain and moves to its parent |
| TreeCore.RepaintedSameShape | beastlier/src/beastlier/operators/SecondTypeFlipper.java:88-93 | recolouring changes no parent or child link |
| TreeCore.RunLenExact | beastlier/src/beastlier/operators/SecondTypeFlipper.java:89 | a run whose first L nodes carry the old element and whose walk stops right after them has length exactly L |
| TreeCore.UpSameShape | beastlier/src/beastlier/operators/SecondTypeExchange.java:57-69 | ancestor walks depend only on the links, so a recoloured tree has the same walks |
| TreeCore.SameShapeTree | beastlier/src/beastlier/operators/SecondTypeExchange.java:57-69 | being a tree depends only on the links |
| TreeCore.Repainted | beastlier/src/beastlier/operators/SecondTypeFlipper.java:88-93 | recolouring keeps the node count and only ever gives a node the new element |
| PartitionedTrees.TimesAreValidMeans | beastlier/src/beast/evolution/tree/PartitionedTree.java:484-495 | timesAreValid holds iff no node of the subtree has a child strictly higher than itself |
| PartitionedTrees.ReachesRoot | beastlier/src/beast/evolution/tree/PartitionedTree.java:788-816 | in a tree every node reaches the root in fewer steps than there are nodes |
| PartitionedTrees.ExistsLeaf | beastlier/src/beast/evolution/tree/PartitionedTree.java:791-812 | every tree has a tip, which the as-written integrity check must then test |
| PartitionedTrees.IntegrityGivesTip | beastlier/src/beast/evolution/tree/PartitionedTree.java:788-816 | under the corrected rule without creep, every node's element reaches down to a tip of that element in its subtree |
| PartitionedTrees.SomeNodeLacksSameElementChild | beastlier/src/beast/evolution/tree/PartitionedTree.java:795-812 | every tree has a node with no child of its own element (any tip), so the as-written check without creep never passes |
| PartitionedTrees.ExampleIsTree | beastlier/src/beast/evolution/tree/PartitionedTree.java:788-816 | the three-node example is a tree |
| PartitionedTrees.IntegrityCounterexample | beastlier/src/beast/evolution/tree/PartitionedTree.java:795-812 | the example obeys the partition rules, yet its tip 0 has no child of its element, so the as-written check rejects it |
| PartitionedTrees.NotBlockedBySelf | beastlier/src/beast/evolution/tree/PartitionedTree.java:832-848 | a non-null MRCA never blocks itself, since the walk starts strictly above it |
| PartitionedTrees.StoredArray | beastlier/src/beast/evolution/tree/PartitionedTree.java:526-571 | the stored array after a store has one entry per live node |
| PartitionedTrees.StoredIsSameTree | beastlier/src/beast/evolution/tree/PartitionedTree.java:526-571 | after store, the stored array has the live tree's links, heights, cache indices and elements, and the same root |
| PartitionedTrees.PostOrderInternal | beastlier/src/beast/evolution/tree/PartitionedTree.java:773-784 | the post-order of internal nodes lists node numbers of the tree |
| PartitionedTrees.PostOrderSound | beastlier/src/beast/evolution/tree/PartitionedTree.java:773-784 | only internal nodes of x's subtree are numbered |
| PartitionedTrees.PostOrderLast | beastlier/src/beast/evolution/tree/PartitionedTree.java:777-781 | an internal node is numbered after its whole subtree, so the subtree's root gets the largest number |
| PartitionedTrees.PostOrderComplete | beastlier/src/beast/evolution/tree/PartitionedTree.java:773-784 | every internal node of x's subtree is numbered |
| PartitionedTrees.PostOrderDistinct | beastlier/src/beast/evolution/tree/PartitionedTree.java:773-784 | no node is numbered twice |
| PartitionedTrees.SubtreesDisjoint | beastlier/src/beast/evolution/tree/PartitionedTree.java:777-778 | the subtrees of two distinct children share no node |
| PartitionedTrees.RenumberingComposes | beastlier/src/beast/evolution/tree/PartitionedTree.java:777-783 | numbering the left subtree, then the right one, then the node numbers the whole post-order consecutively |
| PartitionedTrees.SetNumber | beastlier/src/beast/evolution/tree/PartitionedTree.java:780-781 | setNr and setID change exactly one node's number and ID, the ID being the decimal text of the number |
| PartitionedTrees.NumberSubtree | beastlier/src/beast/evolution/tree/PartitionedTree.java:773-784 | the recursion numbers the internal nodes of the subtree nextNr, nextNr+1, ... in post-order, leaves tips alone and returns nextNr plus their count |
| PartitionedTrees.PartitionedTree.constructor | beastlier/src/beast/evolution/tree/PartitionedTree.java:309-316 | the stored array starts as a separate copy of the live one |
| PartitionedTrees.PartitionedTree.ProcessTraits | beastlier/src/beast/evolution/tree/PartitionedTree.java:204-211 | the element list becomes the strictly sorted distinct trait values; nothing else changes |
| PartitionedTrees.PartitionedTree.IsValid | beastlier/src/beast/evolution/tree/PartitionedTree.java:480-495 | isValid holds iff no node has a child strictly higher than itself |
| PartitionedTrees.PartitionedTree.GetTipsInElement | beastlier/src/beast/evolution/tree/PartitionedTree.java:884-894 | exactly the tips carrying the element |
| PartitionedTrees.PartitionedTree.GetNodesInElement | beastlier/src/beast/evolution/tree/PartitionedTree.java:896-907 | exactly the nodes carrying the element |
| PartitionedTrees.PartitionedTree.GetNodesInSameElement | beastlier/src/beast/evolution/tree/PartitionedTree.java:909-912 | the nodes sharing x's element, x among them |
| PartitionedTrees.PartitionedTree.ChildLinked | beastlier/src/beast/evolution/tree/PartitionedTree.java:795-800 | the inner loop finds whether some child carries the node's element |
| PartitionedTrees.PartitionedTree.CheckPartitionIntegrity | beastlier/src/beast/evolution/tree/PartitionedTree.java:788-816 | as written: an unset allowCreep throws; without creep the result is true iff every node, tips included, has a child of its element; with creep it never returns true, because the root's missing parent is dereferenced |
| PartitionedTrees.PartitionedTree.CheckPartitionIntegrityCorrected | beastlier/src/beast/evolution/tree/PartitionedTree.java:788-816 | as intended: true iff every internal node shares its element with a child, or with its parent when creep is allowed and a parent exists |
| PartitionedTrees.PartitionedTree.NodeIntegrity | beastlier/src/beast/evolution/tree/PartitionedTree.java:795-812 | the corrected test at one node |
| PartitionedTrees.PartitionedTree.IsRootBlockedBy | beastlier/src/beast/evolution/tree/PartitionedTree.java:832-848 | the walk from e's MRCA strictly upward meets b's MRCA (a missing MRCA is met once the walk leaves the root) |
| PartitionedTrees.PartitionedTree.IsRootBlocked | beastlier/src/beast/evolution/tree/PartitionedTree.java:850-858 | true iff some element's MRCA blocks this one |
| PartitionedTrees.PartitionedTree.StoreNodes | beastlier/src/beast/evolution/tree/PartitionedTree.java:554-571 | the stored copies of nodes lo..hi-1 take height, parent, children (unless a tip), cache index and element; other stored nodes are unchanged |
| PartitionedTrees.PartitionedTree.Store | beastlier/src/beast/evolution/tree/PartitionedTree.java:526-549 | the stored array becomes the stored image of the live tree, with the stored root at the live root and without a parent |
| PartitionedTrees.PartitionedTree.Restore | beastlier/src/beast/evolution/tree/EpidemiologicalPartitionedTree.java:442 | the live and stored node arrays change places: the stored tree becomes live, rooted at the stored root, and the old live tree is kept as the stored one |
| PartitionedTrees.PartitionedTree.NumberInternalNodes | beastlier/src/beast/evolution/tree/PartitionedTree.java:773-784 | numberInternalNodes numbers the internal nodes of the subtree consecutively in post-order and returns nextNr plus their count |
| PartitionedTrees.TimesAreValid | beastlier/src/beast/evolution/tree/PartitionedTree.java:484-495 | a leaf is always valid, and a node that passes has no child higher than itself |
| PartitionedTreeNodes.PartitionedTreeNode.constructor | beastlier/src/beast/evolution/tree/PartitionedTreeNode.java:16-17 | a new node has element number -1 and cache index -1, and no parent or children |
| PartitionedTreeNodes.PartitionedTreeNode.SetCacheIndex | beastlier/src/beast/evolution/tree/PartitionedTreeNode.java:23-34 | on a well-formed subtree, the cache index read back is the one set, the subtree stays well formed over the same nodes, and its contents change only in this node's cache index |
| PartitionedTreeNodes.PartitionedTreeNode.SetPartitionElementNumber | beastlier/src/beast/evolution/tree/PartitionedTreeNode.java:41-52 | on a well-formed subtree, the element number read back is the one set, the subtree stays well formed over the same nodes, and its contents change only in this node's element number |
| PartitionedTreeNodes.PartitionedTreeNode.ShallowCopy | beastlier/src/beast/evolution/tree/PartitionedTreeNode.java:64-81 | a fresh node with the same scalar fields that shares this node's parent and children |
| PartitionedTreeNodes.PartitionedTreeNode.Join | beastlier/src/beast/evolution/tree/PartitionedTreeNode.java:112-119 | a node whose children are the given subtrees, linked back to it, with the given contents |
| PartitionedTreeNodes.PartitionedTreeNode.Copy | beastlier/src/beast/evolution/tree/PartitionedTreeNode.java:99-122 | a deep copy made only of fresh nodes, with the same contents and shape and no parent |
| PartitionedTreeNodes.PartitionedTreeNode.Contents | beastlier/src/beast/evolution/tree/PartitionedTreeNode.java:131-139 | reads the subtree's contents |
| PartitionedTreeNodes.PartitionedTreeNode.AssignFrom | beastlier/src/beast/evolution/tree/PartitionedTreeNode.java:130-154 | this node becomes a parentless copy of the source subtree, built from the array entries at the source's node numbers |
| PartitionedTreeNodes.PartitionedTreeNode.AssignBelow | beastlier/src/beast/evolution/tree/PartitionedTreeNode.java:144-153 | the recursion fills this node and its subtree with the given contents and the given parent, using only entries at the subtree's numbers |
| PartitionedTreeNodes.PartitionedTreeNode.AssignRight | beastlier/src/beast/evolution/tree/PartitionedTreeNode.java:148-152 | the right child is filled in and both children are linked under this node, which then holds the whole contents |
| PartitionedTreeNodes.ImageApart | beastlier/src/beast/evolution/tree/PartitionedTreeNode.java:145-150 | disjoint node numbers pick disjoint array entries, so the left and right copies do not overlap |
| RandomPartition.Region | beastlier/src/beast/util/RandomPartition.java:173-181 | the nodes fillDownTree reaches are all unassigned, and there are some exactly when the start node is unassigned |
| RandomPartition.Fill | beastlier/src/beast/util/RandomPartition.java:175 | the nodes of the set take the element; shape and all other elements are unchanged |
| RandomPartition.FillUnion | beastlier/src/beast/util/RandomPartition.java:176-179 | filling one set and then another fills their union |
| RandomPartition.ShapeKeeps | beastlier/src/beast/util/RandomPartition.java:175 | changing elements only keeps the tree a tree |
| RandomPartition.RegionSound | beastlier/src/beast/util/RandomPartition.java:173-181 | every node reached hangs below the start on a path of unassigned nodes |
| RandomPartition.RegionComplete | beastlier/src/beast/util/RandomPartition.java:173-181 | every node below the start on a path of unassigned nodes is reached |
| RandomPartition.RegionMeans | beastlier/src/beast/util/RandomPartition.java:173-181 | reached iff on an unassigned path down from the start |
| RandomPartition.RegionBelow | beastlier/src/beast/util/RandomPartition.java:173-181 | the fill stays inside the start node's subtree |
| RandomPartition.RegionLocal | beastlier/src/beast/util/RandomPartition.java:173-181 | what the fill reaches depends only on the elements inside the subtree |
| RandomPartition.NoTipInUnion | beastlier/src/beast/util/RandomPartition.java:176-178 | a union holds no tip iff neither part does |
| RandomPartition.SameOutsideTrans | beastlier/src/beast/util/RandomPartition.java:176-179 | edits confined to A and then to B stay confined to any superset of A and B |
| RandomPartition.RegionSplit | beastlier/src/beast/util/RandomPartition.java:174-179 | an unassigned internal node's region is itself plus its two children's regions |
| RandomPartition.SecondRegionKept | beastlier/src/beast/util/RandomPartition.java:176-179 | filling the first child's region leaves the second child's region unchanged |
| RandomPartition.FirstCallReady | beastlier/src/beast/util/RandomPartition.java:175-178 | after the node is assigned, the first child's region is what it was before |
| RandomPartition.FirstCallFailed | beastlier/src/beast/util/RandomPartition.java:176-178 | a failure in the first child's call is a failure of the whole fill |
| RandomPartition.SecondCallReady | beastlier/src/beast/util/RandomPartition.java:176-178 | after a successful first call, the state is the start with the node and the first region filled, and the second region is unchanged |
| RandomPartition.SecondCallDone | beastlier/src/beast/util/RandomPartition.java:176-178 | the second child's outcome is the outcome of the whole fill |
| RandomPartition.FillDownTree | beastlier/src/beast/util/RandomPartition.java:173-181 | succeeds iff the region holds no unassigned tip, and then the array is the start with exactly the region filled; on failure only region nodes changed |
| RandomPartition.FillChildren | beastlier/src/beast/util/RandomPartition.java:176-179 | the loop over the two children of a just-assigned node completes the fill of its region |
| RandomPartition.Forcing | beastlier/src/beast/util/RandomPartition.java:77-92 | exactly the elements whose MRCA is above the node and one of whose tips is below it, each once and in element order |
| RandomPartition.IncompatibleMeans | beastlier/src/beast/util/RandomPartition.java:94-95 | more than one forcing element iff two distinct elements both force the node |
| RandomPartition.ForcedByTopology | beastlier/src/beast/util/RandomPartition.java:75-92 | the loop lists the forcing elements, in order and without repeats |
| RandomPartition.AssignByTopology | beastlier/src/beast/util/RandomPartition.java:67-107 | a tip reports its element; two forcing elements is an incompatible tree; one forcing element is assigned to the node; otherwise the node is unforced and unchanged |
| RandomPartition.Winner | beastlier/src/beast/util/RandomPartition.java:139-163 | the winner is one of the children's offers; at the root some offer is always won; a nonempty pick wins; a draw of 2 away from the root defers to the parent |
| RandomPartition.SettleUnforced | beastlier/src/beast/util/RandomPartition.java:139-168 | a winner is filled down from the node, succeeding iff its region holds no unassigned tip; an empty pick sets the element to indexOf(null), -1; deferring leaves the tree alone |
| EpidemiologicalTrees.InitCheck | beastlier/src/beast/evolution/tree/EpidemiologicalPartitionedTree.java:69-95 | rejected iff q's dimension differs from the element count, or q is missing under DIDELOT rules or present under COTTAM rules, with the dimension error first; on success the recalculation flags exist iff the rules are DIDELOT, and then they are all set |
| EpidemiologicalTrees.CaseOfElement | beastlier/src/beast/evolution/tree/EpidemiologicalPartitionedTree.java:104 | the case found is the one whose ID is the element's name; none iff the element is out of range or no case carries that ID |
| EpidemiologicalTrees.InfectionHeightByNr | beastlier/src/beast/evolution/tree/EpidemiologicalPartitionedTree.java:107-113 | element -1 is at +infinity; otherwise the case's infection height, failing exactly when the element has no case |
| EpidemiologicalTrees.InfectionTimeByNr | beastlier/src/beast/evolution/tree/EpidemiologicalPartitionedTree.java:115-121 | element -1 is at -infinity; otherwise the case's infection time, failing exactly when the element has no case |
| EpidemiologicalTrees.GetInfector | beastlier/src/beast/evolution/tree/EpidemiologicalPartitionedTree.java:179-186 | an uninfected case, or one without an ancestor element, has no infector; otherwise the infector is a case carrying the ancestor element's name |
| EpidemiologicalTrees.InfectorIsAncestorCase | beastlier/src/beast/evolution/tree/EpidemiologicalPartitionedTree.java:179-186 | with unique case IDs the infector is exactly the case named by the ancestor element |
| EpidemiologicalTrees.QMarkedMeans | beastlier/src/beast/evolution/tree/EpidemiologicalPartitionedTree.java:283-293 | the q loop marks e iff some dirty entry is e or has e as its ancestor element |
| EpidemiologicalTrees.NodeMarkedMeans | beastlier/src/beast/evolution/tree/EpidemiologicalPartitionedTree.java:295-301 | the node loop marks e iff some partition-dirty node carries e |
| EpidemiologicalTrees.EpidemiologicalTree.InitAndValidate | beastlier/src/beast/evolution/tree/EpidemiologicalPartitionedTree.java:62-97 | fails exactly as InitCheck does; on success both height caches are fresh, distinct, one slot per element and all null, and the flags are InitCheck's |
| EpidemiologicalTrees.EpidemiologicalTree.IdentifyChangedTreelets | beastlier/src/beast/evolution/tree/EpidemiologicalPartitionedTree.java:279-304 | fails iff q is absent or some index written lies outside the element count; otherwise one flag per element, set iff a dirty q entry is the element or its child element, or a partition-dirty node carries it |
| EpidemiologicalTrees.EpidemiologicalTree.CountNodesInPartition | beastlier/src/beast/evolution/tree/EpidemiologicalPartitionedTree.java:466-481 | for a within-host phylogeny counting every node: twice the element's internal nodes plus one; every other request is passed on |
| EpidemiologicalTrees.EpidemiologicalTree.Store | beastlier/src/beast/evolution/tree/EpidemiologicalPartitionedTree.java:435-438 | the partitioned tree stores its nodes and the stored height cache becomes a fresh copy of the live one |
| EpidemiologicalTrees.EpidemiologicalTree.Restore | beastlier/src/beast/evolution/tree/EpidemiologicalPartitionedTree.java:441-444 | the partitioned tree's stored nodes become the live tree, rooted at the stored root, and the live height cache becomes the stored array itself, not a copy |
| Outbreaks.ClinicalCase.InitAndValidate | beastlier/src/beastlier/outbreak/ClinicalCase.java:65-80 | wasEverInfected defaults to true and the prior weight to 1.0; the case is accepted iff it has an end of infectiousness exactly when it was ever infected, with the two distinct errors |
| Outbreaks.ClinicalCase.GetEndTime | beastlier/src/beastlier/outbreak/ClinicalCase.java:56-58 | the end of infectiousness, an error for a case without one |
| Outbreaks.IdsOf | beastlier/src/beastlier/outbreak/Outbreak.java:72-75 | the IDs of the cases, position by position |
| Outbreaks.EverInfected | beastlier/src/beastlier/outbreak/Outbreak.java:61-66 | only ever-infected cases of the list, and all of them |
| Outbreaks.IndexOf | beastlier/src/beastlier/outbreak/Outbreak.java:92 | List.indexOf: the first position holding the case, -1 iff absent |
| Outbreaks.StatesOf | beastlier/src/beastlier/outbreak/Outbreak.java:89-95 | the collected indices are cases carrying the ID; every such case's index is collected; none iff no case carries it |
| Outbreaks.CollectInfected | beastlier/src/beastlier/outbreak/Outbreak.java:63-71 | succeeds iff geography is not required or every case is located, and then yields the ever-infected cases in order; on failure it yields the ever-infected cases up to and including the first unlocated case |
| Outbreaks.CollectNames | beastlier/src/beastlier/outbreak/Outbreak.java:72-75 | the taxon names are the taxa's IDs in order |
| Outbreaks.Outbreak.InitAndValidate | beastlier/src/beastlier/outbreak/Outbreak.java:54-77 | keeps the cases; fails iff geography is required and some case is unlocated; on success the taxa are the ever-infected cases in order and the names their IDs; on failure the taxon list holds the ever-infected cases up to and including the first unlocated one, and the names are unchanged |
| Outbreaks.Outbreak.GetStateCount | beastlier/src/beastlier/outbreak/Outbreak.java:80-82 | one state per ever-infected case |
| Outbreaks.CollectStates | beastlier/src/beastlier/outbreak/Outbreak.java:89-95 | the loop over the cases collects exactly the indices StatesOf describes |
| Outbreaks.Outbreak.String2State | beastlier/src/beastlier/outbreak/Outbreak.java:88-101 | fails iff no case carries the ID; otherwise the indices of the cases carrying it, in case order |
| Outbreaks.Outbreak.State2String | beastlier/src/beastlier/outbreak/Outbreak.java:104-119 | more than one state is refused; succeeds iff exactly one state indexing a case, giving that case's ID |
| Outbreaks.Outbreak.GetStateSet | beastlier/src/beastlier/outbreak/Outbreak.java:122-126 | one flag per ever-infected case, all set |
| Outbreaks.Outbreak.GetStatesForCode | beastlier/src/beastlier/outbreak/Outbreak.java:129-133 | a code stands for exactly itself |
| Outbreaks.Outbreak.GetCaseById | beastlier/src/beastlier/outbreak/Outbreak.java:164-171 | the first case carrying the ID, an error when none does |
| Outbreaks.FirstWithId | beastlier/src/beastlier/outbreak/Outbreak.java:164-171 | found iff some case carries the ID, and then it is the earliest such case |
| Outbreaks.StateRoundTrip | beastlier/src/beastlier/outbreak/Outbreak.java:88-119 | with unique IDs, string2state of a case's ID is its index alone and state2string maps that back to the ID |
| Outbreaks.CaseByIdFinds | beastlier/src/beastlier/outbreak/Outbreak.java:164-171 | with unique IDs, looking a case up by its ID finds that case |
| Outbreaks.IndexOfUnique | beastlier/src/beastlier/outbreak/Outbreak.java:92 | with unique IDs, a case's first occurrence is its own position |
| Outbreaks.StatesOfUnique | beastlier/src/beastlier/outbreak/Outbreak.java:89-95 | with unique IDs, only the case itself carries its ID |
| CategorySets.DropWhitespace | beastlier/src/beastlier/outbreak/CategorySet.java:87 | the leading run of whitespace is removed, and all of it |
| CategorySets.CollapseWhitespace | beastlier/src/beastlier/outbreak/CategorySet.java:87 | empty iff the input is; starts with a space iff the input starts with whitespace |
| CategorySets.CollapseIsCollapsed | beastlier/src/beastlier/outbreak/CategorySet.java:87 | after replaceAll the only whitespace left is single spaces |
| CategorySets.NonWhitespaceOfRun | beastlier/src/beastlier/outbreak/CategorySet.java:87 | dropping a whitespace run keeps every other character |
| CategorySets.CollapseKeepsText | beastlier/src/beastlier/outbreak/CategorySet.java:87 | collapsing keeps every non-whitespace character, in order |
| CategorySets.CollapseFixes | beastlier/src/beastlier/outbreak/CategorySet.java:87 | collapsed text is unchanged by collapsing, so the replacement is idempotent |
| CategorySets.Normalize | beastlier/src/beastlier/outbreak/CategorySet.java:156-164 | fails iff the string is empty (charAt(0)); otherwise a prefix of the string after at most one leading space, shorter by at most one more character, which is removed only when it is a trailing space |
| CategorySets.NormalizeTrims | beastlier/src/beastlier/outbreak/CategorySet.java:153-164 | on collapsed text, no space is left at either end |
| CategorySets.NormalizeKeeps | beastlier/src/beastlier/outbreak/CategorySet.java:156-164 | a trimmed word with at most one space on each side normalizes to the word |
| CategorySets.SplitAll | beastlier/src/beastlier/outbreak/CategorySet.java:85-88 | at least one piece, none holding the separator |
| CategorySets.SplitJoin | beastlier/src/beastlier/outbreak/CategorySet.java:85-88 | joining the pieces with the separator gives back the string |
| CategorySets.SplitNone | beastlier/src/beastlier/outbreak/CategorySet.java:85-88 | a string without the separator is one piece |
| CategorySets.SplitAppend | beastlier/src/beastlier/outbreak/CategorySet.java:85-88 | splitting a, separator, b splits a and adds b |
| CategorySets.JoinSplit | beastlier/src/beastlier/outbreak/CategorySet.java:85-88 | splitting the join of separator-free pieces gives them back |
| CategorySets.DropTrailingEmpty | beastlier/src/beastlier/outbreak/CategorySet.java:85-88 | a prefix of the pieces ending in a nonempty one, all dropped pieces being empty |
| CategorySets.JavaSplit | beastlier/src/beastlier/outbreak/CategorySet.java:85-88 | String.split on one character: no piece holds the separator |
| CategorySets.JavaSplitJoin | beastlier/src/beastlier/outbreak/CategorySet.java:85-88 | separator-free pieces whose last one is nonempty come back from String.split of their join |
| CategorySets.ParseEntry | beastlier/src/beastlier/outbreak/CategorySet.java:87-93 | a parsed entry's two sides hold no '=' |
| CategorySets.ParsePieces | beastlier/src/beastlier/outbreak/CategorySet.java:89-93 | the sides of a two-piece entry hold no '='; any other count is an error |
| CategorySets.CollapseNoWhitespace | beastlier/src/beastlier/outbreak/CategorySet.java:87 | text without whitespace is already collapsed |
| CategorySets.CollapseAfterNewline | beastlier/src/beastlier/outbreak/CategorySet.java:74-87 | the newline the default string puts before an entry collapses to one space |
| CategorySets.SplitPair | beastlier/src/beastlier/outbreak/CategorySet.java:88 | "w=d" splits on '=' into its two sides |
| CategorySets.CollapsePair | beastlier/src/beastlier/outbreak/CategorySet.java:74-87 | a default entry collapses to the pair after nothing or one space |
| CategorySets.ParseEntryOfPair | beastlier/src/beastlier/outbreak/CategorySet.java:74-93 | a default entry parses to its case ID and distribution ID |
| CategorySets.LastWithId | beastlier/src/beastlier/outbreak/CategorySet.java:94-98 | the last distribution carrying the ID (each match overwrites the map entry), or -1 when none does |
| CategorySets.AddEntry | beastlier/src/beastlier/outbreak/CategorySet.java:94-107 | the case goes to the last distribution carrying the ID; a case still unmapped gets a new fixed distribution of length 1.0 appended, named by the normalized ID; an empty ID fails; no other case changes |
| CategorySets.NewDistributionReused | beastlier/src/beastlier/outbreak/CategorySet.java:99-107 | a distribution created for an unknown ID is found by the next entry naming it, which adds nothing |
| CategorySets.ParseAll | beastlier/src/beastlier/outbreak/CategorySet.java:86-93 | each entry parsed on its own |
| CategorySets.ApplyEntries | beastlier/src/beastlier/outbreak/CategorySet.java:86-108 | entries applied in order only grow the list and the case map, and added distributions are fixed at 1.0 |
| CategorySets.DefaultEntries | beastlier/src/beastlier/outbreak/CategorySet.java:71-79 | one entry per case |
| CategorySets.Categorise | beastlier/src/beastlier/outbreak/CategorySet.java:58-128 | on success every case is mapped and the supplied distributions are kept as a prefix, the rest being fixed at 1.0; without cases nothing is parsed |
| CategorySets.CoveredMeans | beastlier/src/beastlier/outbreak/CategorySet.java:112-116 | the coverage loop holds iff every case ID is in the map |
| CategorySets.ApplyKnownPairs | beastlier/src/beastlier/outbreak/CategorySet.java:94-98 | entries naming a known distribution map their cases to it and add none |
| CategorySets.DefaultEntriesHaveNoComma | beastlier/src/beastlier/outbreak/CategorySet.java:71-85 | the default entries hold no comma, so splitting on ',' finds them again |
| CategorySets.DefaultAssignsFirst | beastlier/src/beastlier/outbreak/CategorySet.java:67-108 | with no value string every case gets the first supplied distribution and none is added |
| CategorySets.KeptPositions | beastlier/src/beastlier/outbreak/CategorySet.java:118-122 | exactly the positions some case refers to, in increasing order |
| CategorySets.CleanedUp | beastlier/src/beastlier/outbreak/CategorySet.java:118-133 | the clean-up never grows the list |
| CategorySets.CleanUpKeepsExactlyAssigned | beastlier/src/beastlier/outbreak/CategorySet.java:118-133 | after the clean-up the list holds every case's distribution and no other |
| CategorySets.InitLeavesConsistentSet | beastlier/src/beastlier/outbreak/CategorySet.java:58-135 | a successful initialization maps every case and keeps exactly the distributions in use |
| CategorySets.LastMatch | beastlier/src/beastlier/outbreak/CategorySet.java:94-98 | the loop finds LastWithId |
| CategorySets.DefaultValue | beastlier/src/beastlier/outbreak/CategorySet.java:71-81 | the StringBuilder loop writes the default entries joined by commas |
| CategorySets.AddParsed | beastlier/src/beastlier/outbreak/CategorySet.java:94-107 | one entry applied as AddEntry says |
| CategorySets.ParseValue | beastlier/src/beastlier/outbreak/CategorySet.java:85-108 | the entries of the value string applied in order as ApplyEntries says |
| CategorySets.Categorised | beastlier/src/beastlier/outbreak/CategorySet.java:67-116 | computes Categorise and the default value string when one is written |
| CategorySets.AllMapped | beastlier/src/beastlier/outbreak/CategorySet.java:112-116 | true iff every case ID has a distribution |
| CategorySets.CleanUp | beastlier/src/beastlier/outbreak/CategorySet.java:118-133 | the list without the distributions no case uses |
| CategorySets.CategorySet.InitAndValidate | beastlier/src/beastlier/outbreak/CategorySet.java:58-135 | maps every case as Categorise says, writing the default value string when none is given; on success the list keeps only the distributions in use |
| CategorySets.CategorySet.GetDistribution | beastlier/src/beastlier/outbreak/CategorySet.java:144-146 | the case's distribution, none for an unmapped case |
| TreeEdits.CheckTree | beastlier/src/beastlier/operators/SecondTypeExchange.java:37-44 | accepted iff the tree is partitioned and follows the rules the operator names; each refusal carries the source's message |
| TreeEdits.SwapIn | beastlier/src/beast/evolution/operators/TransmissionExchangeA.java:190-191 | the child list with the replaced child's slot taken by the replacement, every other slot unchanged |
| TreeEdits.Replace | beastlier/src/beastlier/operators/SecondTypeExchange.java:48-49 | replace(node, child, repl) puts repl in child's slot under node and points repl's parent at node |
| TreeEdits.ExchangeNodes | beastlier/src/beast/evolution/operators/TransmissionExchangeA.java:187-193 | the two replacements leave the array as Exchanged describes |
| TreeEdits.ExchangedAt | beastlier/src/beast/evolution/operators/TransmissionExchangeA.java:187-193 | the exchange swaps exactly the two parent links and the two child slots; heights and elements stay |
| TreeEdits.ExchangedNodeAt | beastlier/src/beast/evolution/operators/TransmissionExchangeA.java:187-193 | the exchange at one node, as the whole record |
| TreeEdits.ExchangeLinks | beastlier/src/beast/evolution/operators/TransmissionExchangeA.java:187-193 | exchanging two exchangeable nodes leaves a linked bifurcating tree with i under j's old parent and j under i's |
| TreeEdits.ExchangeLinked | beastlier/src/beast/evolution/operators/TransmissionExchangeA.java:189-192 | the swapped links are consistent both ways |
| TreeEdits.StaysChild | beastlier/src/beast/evolution/operators/TransmissionExchangeA.java:190-191 | a child other than the replaced one stays in the list |
| TreeEdits.TakesSlot | beastlier/src/beast/evolution/operators/TransmissionExchangeA.java:190-191 | the replacement is in the list afterwards |
| TreeEdits.ExchangeUpward | beastlier/src/beast/evolution/operators/TransmissionExchangeA.java:189-192 | after the exchange every node is among its parent's children |
| TreeEdits.ExchangeDownward | beastlier/src/beast/evolution/operators/TransmissionExchangeA.java:189-192 | after the exchange every child points back at its parent |
| TreeEdits.ExchangeChildLinks | beastlier/src/beast/evolution/operators/TransmissionExchangeA.java:189-192 | after the exchange every child slot holds a node in range whose parent is the slot's owner |
| TreeEdits.ExchangeBinary | beastlier/src/beast/evolution/operators/TransmissionExchangeA.java:159 | the exchange keeps every node bifurcating |
| TreeEdits.ExchangeKeepsTree | beastlier/src/beast/evolution/operators/TransmissionExchangeA.java:187-193 | an exchange that leaves no cycle leaves a tree with the same root |
| TreeEdits.UpAgree | beastlier/src/beastlier/operators/SecondTypeExchange.java:57-69 | walks along links that agree are the same walk |
| TreeEdits.ExchangedWalksAvoid | beastlier/src/beastlier/operators/SecondTypeExchange.java:57-69 | after an exchange that leaves a tree, the walk up from either old parent meets neither exchanged node |
| TreeEdits.OtherChild | beastlier/src/beastlier/operators/DidelotSubtreeSlideA.java:225-228 | getOtherChild: a child of p, and not c when c is one of two distinct children |
| TreeEdits.GetEligibleNodes | beastlier/src/beastlier/operators/TransmissionWilsonBaldingA.java:139-163 | exactly the nodes eligibleForMove accepts, in node-number order |
| TreeEdits.HeightsOrderedMeans | beastlier/src/beast/evolution/tree/PartitionedTree.java:484-495 | heights ordered along every parent link iff no node has a child higher than itself |
| TreeEdits.DistinctSize | beastlier/src/beast/evolution/operators/TransmissionExchangeA.java:172-176 | a list without repeats is as long as the set of its values, so the candidate counts are set sizes |
| TreeEdits.Without | beastlier/src/beastlier/operators/SecondTypeWrapper.java:152-191 | removing a value keeps only other members of the list |
| TreeEdits.WithoutDistinct | beastlier/src/beastlier/operators/SecondTypeWrapper.java:152-191 | removing a value keeps a list without repeats, shrinking it by at most one and not at all when the value is absent |
| TreeEdits.DistinctBounded | beastlier/src/beast/evolution/operators/TransmissionExchangeA.java:164-180 | distinct values below n are at most n many |
| TreeEdits.StillInside | beastlier/src/beastlier/operators/SecondTypeExchange.java:57-69 | a walk still inside the tree after b steps was inside at every earlier step |
| TreeEdits.ChainHeights | beastlier/src/beast/evolution/operators/TransmissionExchangeA.java:168-171 | heights never fall along a walk up an ordered tree, and a stretch ending as high as it starts avoids the two exchanged nodes |
| TreeEdits.ExchangedHeights | beastlier/src/beast/evolution/operators/TransmissionExchangeA.java:168-171 | the guarded exchange keeps parents no lower than children, and i and j strictly below their new parents |
| TreeEdits.WalkRepeats | beastlier/src/beastlier/operators/SecondTypeExchange.java:57-69 | a walk inside the tree for |ns| steps visits some node twice |
| TreeEdits.OldLinksNoCycle | beastlier/src/beastlier/operators/SecondTypeExchange.java:57-69 | a walk along links of an acyclic tree never returns to its start |
| TreeEdits.RegraftedWalkLeaves | beastlier/src/beast/evolution/operators/TransmissionExchangeA.java:168-171 | after the guarded exchange every walk up leaves the tree within |ns| steps |
| TreeEdits.ExchangeByHeightAcyclic | beastlier/src/beast/evolution/operators/TransmissionExchangeA.java:168-171 | the two height guards make the exchange leave no cycle |
| TreeEdits.GuardedExchangeKeepsTree | beastlier/src/beast/evolution/operators/TransmissionExchangeA.java:168-193 | the guarded exchange leaves a tree with the same root, heights still ordered, elements and heights unchanged |
| TreeEdits.GuardedExchange | beastlier/src/beast/evolution/operators/TransmissionExchangeA.java:187-193 | exchangeNodes under the guards: the tree stays valid and ordered, and i and j have traded parents |
| TreeEdits.SwapBack | beastlier/src/beast/evolution/operators/TransmissionExchangeA.java:190-191 | replacing back undoes a replacement |
| TreeEdits.ExchangeBackAt | beastlier/src/beast/evolution/operators/TransmissionExchangeA.java:187-193 | exchanging again with the new parents restores every node |
| TreeEdits.ExchangeTwiceRestores | beastlier/src/beast/evolution/operators/TransmissionExchangeA.java:187-193 | exchanging the same two nodes twice restores the tree |
| SecondTypeFlipper.FlipCheck | beastlier/src/beastlier/operators/SecondTypeFlipper.java:68-86 | passes iff the node has two children of which exactly one carries its element, with the source's messages; the answer is the other child's element |
| SecondTypeFlipper.ChildrenOffChain | beastlier/src/beastlier/operators/SecondTypeFlipper.java:88-96 | the children of the flipped node are not on the recoloured chain |
| SecondTypeFlipper.MarkedAt | beastlier/src/beastlier/operators/SecondTypeFlipper.java:95-96 | marking the two children dirty leaves every other node as recoloured |
| SecondTypeFlipper.FlipAt | beastlier/src/beastlier/operators/SecondTypeFlipper.java:88-96 | node by node: the run from the node upward takes the infected case and is marked dirty; the children only become dirty; all else is unchanged |
| SecondTypeFlipper.FlipKeepsLinks | beastlier/src/beastlier/operators/SecondTypeFlipper.java:88-96 | the flip changes no link |
| SecondTypeFlipper.FlipKeepsTree | beastlier/src/beastlier/operators/SecondTypeFlipper.java:88-96 | the flip keeps the tree and its root |
| SecondTypeFlipper.FlipSwapsChild | beastlier/src/beastlier/operators/SecondTypeFlipper.java:85-96 | after the flip the node carries the infected case and the second-type rule holds at it again, the transmission moved to the other child |
| SecondTypeFlipper.FlipTwiceRestores | beastlier/src/beastlier/operators/SecondTypeFlipper.java:66-103 | flipping twice at the same node restores every element, unless the node above the run carries the infected case |
| SecondTypeFlipper.FlipFirst | beastlier/src/beastlier/operators/SecondTypeFlipper.java:88-93 | after one flip the check answers the infector and the run of the infected case is the recoloured chain |
| SecondTypeFlipper.RunAgain | beastlier/src/beastlier/operators/SecondTypeFlipper.java:89-92 | after the first flip the run of the infected case is as long as the recoloured run |
| SecondTypeFlipper.FlipBack | beastlier/src/beastlier/operators/SecondTypeFlipper.java:88-93 | the second flip repaints the same chain with its old elements |
| SecondTypeFlipper.AdjustTree | beastlier/src/beastlier/operators/SecondTypeFlipper.java:66-103 | fails, changing nothing, iff the checks fail; otherwise the tree becomes Flipped, stays valid, and the log Hastings ratio is 0 |
| SecondTypeExchange.RecolouredAt | beastlier/src/beastlier/operators/SecondTypeExchange.java:57-69 | node by node: the run of j's element above jP takes i's element, then the run of i's element above iP takes j's, both marked dirty |
| SecondTypeExchange.WalksSpareExchanged | beastlier/src/beastlier/operators/SecondTypeExchange.java:57-69 | neither walk reaches i or j, so the elements they compare against stay fixed |
| SecondTypeExchange.ExchangeRecolouredTree | beastlier/src/beastlier/operators/SecondTypeExchange.java:46-70 | the result is a tree with the same root, i under jP and j under iP, i and j keeping their elements and every height unchanged |
| SecondTypeExchange.ExchangeRecolouredParent | beastlier/src/beastlier/operators/SecondTypeExchange.java:64-69 | iP, which now holds j, ends with j's element whenever it carried i's or j's |
| SecondTypeExchange.ExchangeRecolouredElsewhere | beastlier/src/beastlier/operators/SecondTypeExchange.java:57-69 | a node on neither chain above iP and jP keeps its element |
| SecondTypeExchange.ExchangeNodes | beastlier/src/beastlier/operators/SecondTypeExchange.java:46-70 | the tree stays valid and becomes ExchangeRecoloured |
| SecondTypeExchange.ExchangeRecolourNodes | beastlier/src/beastlier/operators/SecondTypeExchange.java:46-70 | on the node array: the exchange and both recolouring walks leave a tree with the same root, equal to ExchangeRecoloured |
| SecondTypeWrapper.InitCheck | beastlier/src/beastlier/operators/SecondTypeWrapper.java:54-66 | accepted iff the tree is partitioned with second-type rules and the inner operator is a swap or transplant operator |
| SecondTypeWrapper.PaintUp | beastlier/src/beastlier/operators/SecondTypeWrapper.java:253-262 | the loop leaves the array as PaintedUp |
| SecondTypeWrapper.PaintUpAt | beastlier/src/beastlier/operators/SecondTypeWrapper.java:253-262 | at the root nothing changes; otherwise exactly the maximal run of strict ancestors with the old element, stopping at the limit, takes the new one; no link or height changes |
| SecondTypeWrapper.PaintedUpTree | beastlier/src/beastlier/operators/SecondTypeWrapper.java:253-262 | a repaint keeps the tree |
| SecondTypeWrapper.ParentsArray | beastlier/src/beastlier/operators/SecondTypeWrapper.java:233-243 | one entry per node, -1 for the root, otherwise the parent's number |
| SecondTypeWrapper.Changed | beastlier/src/beastlier/operators/SecondTypeWrapper.java:74-78 | exactly the filthy nodes, in increasing order |
| SecondTypeWrapper.Swapped | beastlier/src/beastlier/operators/SecondTypeWrapper.java:89-93 | fails iff a changed node is the root; otherwise exactly the changed nodes with a filthy parent |
| SecondTypeWrapper.RepairedKeepsTree | beastlier/src/beastlier/operators/SecondTypeWrapper.java:69-231 | the repair never changes the topology: a tree stays the same tree |
| SecondTypeWrapper.SwapRepaintedTree | beastlier/src/beastlier/operators/SecondTypeWrapper.java:103-114 | the swap repair keeps the tree |
| SecondTypeWrapper.SprRepaintedTree | beastlier/src/beastlier/operators/SecondTypeWrapper.java:210-222 | the transplant repair keeps the tree |
| SecondTypeWrapper.SwapCaseFails | beastlier/src/beastlier/operators/SecondTypeWrapper.java:83-100 | when something changed, the swap case succeeds iff four nodes changed, none the root, and two of them have a filthy parent |
| SecondTypeWrapper.SprFirstRule | beastlier/src/beastlier/operators/SecondTypeWrapper.java:211-212 | when the moved child is in another element, only the transplanted node changes, taking its new sibling's element |
| SecondTypeWrapper.Proposal | beastlier/src/beastlier/operators/SecondTypeWrapper.java:69-231 | the tree becomes Repaired's, stays valid, fails exactly when the repair throws, and otherwise passes the inner Hastings ratio through |
| SecondTypeWrapper.SwapProposal | beastlier/src/beastlier/operators/SecondTypeWrapper.java:81-115 | the swap case as SwapCase says |
| SecondTypeWrapper.SprProposal | beastlier/src/beastlier/operators/SecondTypeWrapper.java:116-222 | the transplant case as SprCase says |
| SecondTypeWrapper.UpSameShapeAcyclic | beastlier/src/beastlier/operators/SecondTypeWrapper.java:253-262 | recolouring does not create a cycle |
| SecondTypeWrapper.CollectChanged | beastlier/src/beastlier/operators/SecondTypeWrapper.java:74-78 | the loop collects Changed |
| TransmissionExchangeA.GetPossibleExchanges | beastlier/src/beast/evolution/operators/TransmissionExchangeA.java:156-182 | refused for the root with the source's message; otherwise exactly the candidates, without repeats or the node itself |
| TransmissionExchangeA.VisitParent | beastlier/src/beast/evolution/operators/TransmissionExchangeA.java:164-180 | one loop step adds exactly the new parent's qualifying children |
| TransmissionExchangeA.FreshChild | beastlier/src/beast/evolution/operators/TransmissionExchangeA.java:166-176 | a child of an unvisited node is not already collected |
| TransmissionExchangeA.CandidateSymmetric | beastlier/src/beast/evolution/operators/TransmissionExchangeA.java:164-180 | if j may take i's place, i may take j's |
| TransmissionExchangeA.ExchangeReversible | beastlier/src/beast/evolution/operators/TransmissionExchangeA.java:102-154 | after the exchange each node is again a candidate for the other and exchanging again restores the tree, so the reverse counts are at least one |
| TransmissionExchangeA.Operate | beastlier/src/beast/evolution/operators/TransmissionExchangeA.java:102-154 | with no candidate the draw fails and nothing changes; otherwise a candidate is exchanged, the tree stays a valid ordered tree, the counts are the four candidate-set sizes, and the final check decides failure: the first version's partition check as written never lets the move through (NullPointerException when creep is unset, TEA isn't working properly when creep is disallowed), while the second version's time check never fails |
| TransmissionExchangeA.ExchangeAndCheck | beastlier/src/beast/evolution/operators/TransmissionExchangeA.java:125-150 | exchange, the two reverse counts and the final check; with the partition check as written the result is always an error, a NullPointerException exactly when the check throws; the time check never fails |
| TransmissionExchangeA.RunFinalCheck | beastlier/src/beast/evolution/operators/TransmissionExchangeA.java:148-150 | the final check accepts iff the chosen rule holds; the partition check as written throws when creep is unset, never accepts, and throws with creep allowed iff every node below the root passes; the time check accepts every ordered tree |
| TransmissionExchangeA.AsWrittenNeverPasses | beastlier/src/beast/evolution/tree/PartitionedTree.java:788-816 | no tree passes the partition check as written, because a tip has no child of its element |
| TransmissionExchangeB.Init | beastlier/src/beast/evolution/operators/TransmissionExchangeB.java:72-77 | accepted iff the tree is partitioned and, for ThirdTypeExchangeB, has Didelot's rules |
| TransmissionExchangeB.GetPossibleExchanges | beastlier/src/beast/evolution/operators/TransmissionExchangeB.java:161-191 | refused for the root and for a node that starts no infection, with the two messages; otherwise exactly the candidates in increasing node order |
| TransmissionExchangeB.CandidateSymmetric | beastlier/src/beast/evolution/operators/TransmissionExchangeB.java:170-189 | candidacy is symmetric between two infection starts |
| TransmissionExchangeB.ExchangeReversible | beastlier/src/beast/evolution/operators/TransmissionExchangeB.java:104-159 | when both still start infections after the move, each is a candidate for the other and exchanging again restores the tree |
| TransmissionExchangeB.Operate | beastlier/src/beast/evolution/operators/TransmissionExchangeB.java:104-159 | with no candidate the proposal is refused and nothing changes; otherwise a candidate is exchanged, and the counts are the four candidate-set sizes unless i or j no longer starts an infection |
| TransmissionExchangeB.ExchangeAndCount | beastlier/src/beast/evolution/operators/TransmissionExchangeB.java:132-156 | the exchange and the reverse counts, which fail iff i or j no longer starts an infection |
| TransmissionExchangeB.IncreasingSize | beastlier/src/beast/evolution/operators/TransmissionExchangeB.java:170-190 | an increasing list is as long as the set of its values |
| TreeEdits.EligibleRatioAsWritten | beastlier/src/beastlier/operators/TransmissionWilsonBaldingA.java:132-134 | as written: the int quotient of the eligible counts, the largest q with q times the reverse count at most the forward count |
| TreeEdits.EligibleRatioVanishes | beastlier/src/beastlier/operators/DidelotSubtreeSlideA.java:201-202 | when the move adds eligible nodes the truncated ratio is 0 while the intended one is positive |
| TreeEdits.EligibleRatio | beastlier/src/beastlier/operators/DidelotSubtreeSlideA.java:201-202 | as intended: the real quotient of the counts, positive whenever some node was eligible before the move |
| TreeEdits.Eligible | beastlier/src/beastlier/operators/DidelotSubtreeSlideA.java:219-230 | eligibleForMove holds iff the node has a parent and the parent's own parent or the node's sibling is in the parent's element |
| TreeEdits.Exchanged | beastlier/src/beast/evolution/operators/TransmissionExchangeA.java:187-193 | the exchange keeps the node count and changes no node but i, j, iP and jP |
| TransmissionExchangeB.Infection | beastlier/src/beast/evolution/operators/TransmissionExchangeB.java:174-180 | a node starts an infection iff it has a parent and is not in its parent's element |
| SecondTypeFlipper.FlipTo | beastlier/src/beastlier/operators/SecondTypeFlipper.java:88-96 | the flip only gives nodes the infected case's element, and it marks both children of the parent partition-dirty |
| DidelotSubtreeSlideA.ChildDeeper | beastlier/src/beastlier/operators/DidelotSubtreeSlideA.java:246-248 | a child of a node reached by the recursion is in range, points back at it, and is one step deeper |
| DidelotSubtreeSlideA.EdgesSound | beastlier/src/beastlier/operators/DidelotSubtreeSlideA.java:235-250 | every collected branch crosses the height: its lower end is below it, every node from it up to the start hangs under a parent of the element, and those nodes are at or above the height |
| DidelotSubtreeSlideA.EdgesComplete | beastlier/src/beastlier/operators/DidelotSubtreeSlideA.java:235-250 | every such crossing branch is collected |
| DidelotSubtreeSlideA.IntersectingEdges | beastlier/src/beastlier/operators/DidelotSubtreeSlideA.java:235-250 | the count is the number of crossing branches, and the list gains exactly those branches when it is given |
| DidelotSubtreeSlideA.ChildrenIntersectingEdges | beastlier/src/beastlier/operators/DidelotSubtreeSlideA.java:245-249 | the loop over the children counts the crossing branches below each child in turn, and appends them in child order when collecting |
| DidelotSubtreeSlideA.ChildrenEdges | beastlier/src/beastlier/operators/DidelotSubtreeSlideA.java:245-249 | the loop over the children collects the union of their branches |
| DidelotSubtreeSlideA.Climb | beastlier/src/beastlier/operators/DidelotSubtreeSlideA.java:105-111 | the number of steps the climb takes, at most the fuel |
| DidelotSubtreeSlideA.ClimbStops | beastlier/src/beastlier/operators/DidelotSubtreeSlideA.java:107-111 | every node the climb passes is below the new height, and it stops at the root or at a node at or above it |
| DidelotSubtreeSlideA.ClimbEnds | beastlier/src/beastlier/operators/DidelotSubtreeSlideA.java:105-111 | in a tree the climb ends within the node count |
| DidelotSubtreeSlideA.FindNewChild | beastlier/src/beastlier/operators/DidelotSubtreeSlideA.java:103-111 | the loop stops at the node Climb names, with its parent as the new parent |
| DidelotSubtreeSlideA.SlideDownLands | beastlier/src/beastlier/operators/DidelotSubtreeSlideA.java:100-111 | a downward slide that changes the topology lands above an ancestor of iP, every node climbed past being below the new height |
| DidelotSubtreeSlideA.SlideDownTarget | beastlier/src/beastlier/operators/DidelotSubtreeSlideA.java:100-132 | the node a downward slide lands above is in iP's element, under a parent that is missing or at least as high as the new height, which is iP's height plus a positive delta |
| DidelotSubtreeSlideA.SlideUpDestinations | beastlier/src/beastlier/operators/DidelotSubtreeSlideA.java:150-191 | an upward slide that changes the topology keeps i below the new height, starts from a sibling above it, and offers exactly the branches crossing the new height below the sibling, never none |
| DidelotSubtreeSlideA.Propose | beastlier/src/beastlier/operators/DidelotSubtreeSlideA.java:70-197 | fails iff no node is eligible; otherwise the drawn node is eligible and the move is what SlideOf decides for it and the delta |
| DidelotSubtreeSlideA.Decide | beastlier/src/beastlier/operators/DidelotSubtreeSlideA.java:88-197 | computes SlideOf |
| DidelotSubtreeSlideA.DecideDown | beastlier/src/beastlier/operators/DidelotSubtreeSlideA.java:103-116 | the climb loop and the element test give the downward decision SlideDownOf |
| DidelotSubtreeSlideA.DecideUp | beastlier/src/beastlier/operators/DidelotSubtreeSlideA.java:150-167 | intersectingEdges and the empty-list test give the upward decision SlideUpOf |
| TransmissionWilsonBaldingA.Add | beastlier/src/beastlier/operators/TransmissionWilsonBaldingA.java:71-77 | HashSet.add: the set gains the node and nothing else, without repeats |
| TransmissionWilsonBaldingA.PossibleDestinations | beastlier/src/beastlier/operators/TransmissionWilsonBaldingA.java:68-78 | without repeats, iP among them, and exactly the nodes of iP's element and their children |
| TransmissionWilsonBaldingA.CollectDestinations | beastlier/src/beastlier/operators/TransmissionWilsonBaldingA.java:71-77 | the loop over the nodes of the element gathers exactly the destinations |
| TransmissionWilsonBaldingA.AddNode | beastlier/src/beastlier/operators/TransmissionWilsonBaldingA.java:72-76 | one loop step adds the node and, when internal, its two children |
| TransmissionWilsonBaldingA.CoveredStep | beastlier/src/beastlier/operators/TransmissionWilsonBaldingA.java:71-77 | visiting one more node of the element covers its destinations |
| TransmissionWilsonBaldingA.FirstAcceptableMeans | beastlier/src/beastlier/operators/TransmissionWilsonBaldingA.java:80-86 | the result is the first acceptable draw and no earlier draw is acceptable |
| TransmissionWilsonBaldingA.FirstAcceptableNone | beastlier/src/beastlier/operators/TransmissionWilsonBaldingA.java:80-86 | no destination is found iff no draw is acceptable |
| TransmissionWilsonBaldingA.DrawDestination | beastlier/src/beastlier/operators/TransmissionWilsonBaldingA.java:80-86 | the redraw loop finds FirstAcceptable |
| TransmissionWilsonBaldingA.MoveOf | beastlier/src/beastlier/operators/TransmissionWilsonBaldingA.java:88-101 | refused when iP or j is the root, j has no parent, or the destination touches i's branch; a regraft otherwise, and then neither iP nor j is the root |
| TransmissionWilsonBaldingA.UpNotLower | beastlier/src/beastlier/operators/TransmissionWilsonBaldingA.java:97-99 | heights never fall along a walk up an ordered tree |
| TransmissionWilsonBaldingA.HigherNotBelow | beastlier/src/beastlier/operators/TransmissionWilsonBaldingA.java:97-99 | a node higher than i is not in i's subtree |
| TransmissionWilsonBaldingA.FractionOfRange | beastlier/src/beastlier/operators/TransmissionWilsonBaldingA.java:99 | a draw in [0, 1] times a nonnegative range lies within the range |
| TransmissionWilsonBaldingA.RegraftFits | beastlier/src/beastlier/operators/TransmissionWilsonBaldingA.java:88-101 | for an accepted regraft neither j nor its parent lies in i's subtree, and the new age lies between the higher of i and j and j's parent |
| TransmissionWilsonBaldingA.RegraftAge | beastlier/src/beastlier/operators/TransmissionWilsonBaldingA.java:97-99 | newAge lies between newMinAge and j's parent's height |
| TransmissionWilsonBaldingA.Propose | beastlier/src/beastlier/operators/TransmissionWilsonBaldingA.java:52-101 | refused with the draw's error iff no node is eligible; otherwise the drawn node is eligible; an accepted proposal has an acceptable destination and the move MoveOf decides; an eligible node with no acceptable destination is refused |

## Left out

- Random draws (`Randomizer.nextInt`, `nextDouble`). They are parameters: the drawn node i, an index into the candidate list, or a finite sequence of draws. The loops that redraw i until it is eligible are not modelled.
- TransmissionWilsonBaldingA.Propose: the redraw loop for j works on a finite sequence of draws and fails when they run out. The source would keep drawing, possibly for ever.
- Log Hastings ratios and the `Math.log` terms of the operators are not modelled. The eligible-node ratio appears only in the Findings below.
- `SecondTypeWrapper`: the inner operator's random move is not modelled. The wrapper takes the changed-node flags, and for a subtree prune-and-regraft the moved nodes, as parameters.
- The tree rewiring that completes `DidelotSubtreeSlideA` and `TransmissionWilsonBaldingA` moves (`replace`, `setHeight`) is not modelled. The model stops at the decision: where the subtree goes, or why the move is refused. The reverse `intersectingEdges` count after the slide is not modelled either.
- `replace` is not in the shown files. It is modelled as slot replacement plus a parent update, which leaves the order of children after a replace unmodelled.
- TransmissionExchangeA.Operate, TransmissionExchangeB.Operate: both require heights ordered along every branch (`timesAreValid` everywhere). Only under that requirement does the exchange provably keep the tree acyclic. The source does not check it.
- PartitionedTrees.PartitionedTree.Restore: BEAST's `Tree.restore` is not part of this model. It is modelled as the exchange of the live and stored node arrays; its reset of the nodes' dirty flags and of the leaf count is not modelled.
- ElementList.LexLess: it compares code points, while Java's `String.compareTo` compares UTF-16 code units. The two orders differ only when a character above U+FFFF meets one between U+E000 and U+FFFF at the same position, so `SortedDistinct` may order such element names differently from `processTraits`.
- `HashSet` iteration order is not modelled. Iteration over a destination set picks an arbitrary element.
- Dirty flags (`setSomethingIsDirty`, `makeDirty`) are modelled only where an operation reads them back: the partition-dirty flag of a node.
- `getInfectionHeight`/`getInfectionTime` of the epidemiological tree are floating-point model code. The case's heights and times are parameters, and so are `getEndTime`, the ancestor relation and element MRCAs (`TreeUtils`, `directDescendant`, `getAncestorPartitionElement`), which are not part of this model.
- `countNodesInPartition` delegates to the within-host model, which is not part of this model. It is modelled for a phylogeny that counts every node, and the super-call case gives none.
- `randomlyAssignNode`'s random recursion is not modelled. Only its deterministic steps are: the winner among the children's elements (with the draw as a parameter) and settling an unforced node.
- `PartitionedTree.initAndValidate` and `partitionDown` draw at random and are not modelled. `markClades` and tree logging are not modelled.
- `CategorySet`: on an error the source may leave the map and the list partly filled. The model returns the error and keeps no partial state.
- PartitionedTreeNodes.PartitionedTreeNode.AssignFrom: when a source node is a tip or has only a left child, `assignFrom` (PartitionedTreeNode.java:144-153) leaves the target's existing child slots as they were, while the model clears them. The two agree at the only call site (PartitionedTree.java:380-386), where every target is a fresh childless node.
- Decimal.ParseInt: the blanks it skips are those of C's `isspace` in the C locale; other locales are not modelled.
- `MPCTree.py`: reading the trace file, argument parsing and CSV output are I/O. The trace rows, the burn-in and the mode are parameters, and the output is the rows' cells.
- MpcTree.FreshTables: a host named `name` is not modelled. In `getGuesses` (MPCTree.py:102-109) that host's counter overwrites the `'name'` entry of every host's table, after which no table matches a header and nothing is counted. The model keeps each table's name apart from its counters.
- MpcTree.MpcTreeSummary: a host named `TLPC` when no table carries that name is not modelled faithfully. The source then reports the score's decimal text as that host's parent (MPCTree.py:50, 63); the model reports the row's cell. Floating-point text is outside this model. With a table of that name, both fail.
- MpcTree.SummarizeStates: the same `TLPC` case as MpcTreeSummary, for the same reason.
- `Log.info`, printing, Swing editors, loggers and the operators and likelihoods outside this core (the guided and Cottam slides, the third-type slide and Wilson-Balding, the within-host and SEIR models, distributions) are not part of this model.
- Floating-point rounding is not modelled. Heights, credibilities and ratios are exact reals.

## Findings

| source | as written | input that shows it | evidently intended | confidence | as-written member | corrected member |
|---|---|---|---|---|---|---|
| beastlier/src/beast/evolution/tree/PartitionedTree.java:788-816 | every node, tips included, must have a child of its own element; with creep allowed, the root's missing parent is dereferenced | a three-node tree with the root and tip 0 in one element and tip 1 in another obeys the partition rules, but tip 0 has no child and is rejected; the first TransmissionExchangeA version (TransmissionExchangeA.java:148) makes this check after every move, so it fails every move | tips are exempt, and the parent is consulted only when creep is allowed and a parent exists | not executed | PartitionedTrees.PartitionedTree.CheckPartitionIntegrity (counterexample PartitionedTrees.IntegrityCounterexample; every tree: TransmissionExchangeA.AsWrittenNeverPasses) | PartitionedTrees.PartitionedTree.CheckPartitionIntegrityCorrected (the final check TransmissionExchangeA.IntendedPartitionIntegrity) |
| beastlier/src/beastlier/operators/DidelotSubtreeSlideA.java:201-202 | `Math.log(eligibleNodeCount/reverseEligibleNodeCount)` divides two ints, which truncates | 1 eligible node before the move and 2 after give 1/2 = 0, whose logarithm is minus infinity, so the move is always rejected; TransmissionWilsonBaldingA.java:132-134 does the same | the quotient of the counts as real numbers, positive whenever some node was eligible | not executed | TreeEdits.EligibleRatioAsWritten (counterexample TreeEdits.EligibleRatioVanishes) | TreeEdits.EligibleRatio |
