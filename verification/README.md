# Apriori frequent-itemset miner, modelled in Dafny

This project models the core of a C++ Apriori miner. The miner reads a
transaction file with one row per line. It then finds every itemset that at
least `minSupp` rows contain, with `minSupp = 2`, and searches level by level:

* **readFile** stores the rows. It also builds `positions`, a map from each
  item to the ascending list of rows holding it (its posting list).
* **firstStep** keeps the items whose posting list is long enough. It adds
  those items to `results` and builds every pair of them as the level-2
  candidates.
* **findSupport** counts each candidate. It scans only the posting list of
  the candidate's rarest item (the pivot) and tests each of those rows with
  `std::includes`. It keeps the candidates that reach `minSupp` and appends
  them to `results`.
* **createItemset** joins frequent k-itemsets that agree on all but their
  last item into (k+1)-candidates. Once at most two itemsets are frequent,
  it stops the search instead.
* **compute** loads the rows, runs firstStep, then alternates findSupport
  and createItemset until `done`.

The model has four modules:

* `Itemsets` (itemsets.dfy): transactions, containment, support and posting
  lists. It also holds the lexicographic order on itemsets.
* `Levels` (levels.dfy): each step as a specification function. These are
  the frequent items (`Level1`), the cross pairs (`Pairs`), the support
  filter (`Filter`) and the prefix join (`Join`).
* `Mining` (mining.dfy): the whole search as the function
  `FrequentItemsets`. Its lemmas prove it sound, ordered, free of
  duplicates and complete.
* `Apriori` (apriori.dfy): the class `AprioriAlgorithm`. Its fields and
  methods follow the C++ class, and each method is proved against the
  functions above.

The miner's own loops appear here as methods with loop invariants. Some
C++ loops are nested, and their inner loops became methods of their own:

* `AddRow` is the inner loop of readFile.
* `Pivot` and `CountFrom` are the two inner loops of findSupport.
* `JoinRun` and `JoinAll` are the two loops of createItemset.
* `Round` is one pass of compute's loop, and `Rounds` is that loop.

The end-to-end result is `Compute`. On a fresh object it leaves
`results == FrequentItemsets(rows, 2)`. `FrequentItemsetsSound` and
`FrequentItemsetsComplete` then say exactly which itemsets those are: the
non-empty ascending itemsets with support at least 2, each once, each with
its support, ordered by size and then lexicographically.

## Model

| member | source | states |
|---|---|---|
| Itemsets.Includes | AprioriAlgorithm.cpp:153 | for strictly ascending sequences, the `std::includes` merge test holds exactly when every item of the candidate occurs in the row |
| Itemsets.PostingMembers | AprioriAlgorithm.cpp:87-90 | a row index is in an item's posting list iff that row holds the item |
| Itemsets.PostingLength | AprioriAlgorithm.cpp:110-112 | the length of an item's posting list is the support of the 1-itemset {x} |
| Itemsets.ItemSetPostings | AprioriAlgorithm.cpp:89 | an item occurs in some row exactly when its posting list is not empty |
| Itemsets.PivotCount | AprioriAlgorithm.cpp:148-155 | counting only the rows in the posting list of any item of the candidate gives the candidate's full support |
| Itemsets.SupportAntitone | AprioriAlgorithm.cpp:141-144 | a superset never has more support than a subset, so the rarest item bounds the candidate's support |
| Itemsets.AscendingLengthBound | AprioriAlgorithm.cpp:238-241 | a strictly ascending itemset over the data's items is no longer than the number of distinct items, which bounds the number of levels |
| Levels.FrequentItemsSound | AprioriAlgorithm.cpp:110-114 | each kept key {x} carries its posting-list length, which reaches minSupp, and the kept keys ascend |
| Levels.FrequentItemsComplete | AprioriAlgorithm.cpp:110-114 | every key whose posting list reaches minSupp is kept with that length |
| Levels.Level1Spec | AprioriAlgorithm.cpp:110-114 | the first level holds exactly the keys with posting lists of length at least minSupp, as ascending singletons with that length as support |
| Levels.PairsCount | AprioriAlgorithm.cpp:119-124 | the nested pair loop makes n(n-1)/2 candidates from n frequent items |
| Levels.PairsMembers | AprioriAlgorithm.cpp:119-124 | the candidates are exactly {f[i], f[j]} for i < j, with support 0 |
| Levels.PairsSorted | AprioriAlgorithm.cpp:119-124 | over ascending frequent items, the pairs are 2-itemsets in strictly ascending lexicographic order |
| Levels.FilterMembers | AprioriAlgorithm.cpp:136-161 | an entry survives the support pass iff it is some candidate's itemset with that candidate's true support, which reaches minSupp |
| Levels.FilterShape | AprioriAlgorithm.cpp:157-158 | pruning keeps the level's size and lexicographic order |
| Levels.AgreePrefix | AprioriAlgorithm.cpp:193-207 | for two k-itemsets, compare's test is equality of the first k-1 items |
| Levels.ScanOverrunsIff | AprioriAlgorithm.cpp:174 | the unbounded inner scan runs past the end of freqItemset iff every later entry agrees with f[i] below its last item |
| Levels.ScanOverrunsRun | AprioriAlgorithm.cpp:174 | the scan overruns exactly when the bounded run of joins reaches the end of the level |
| Levels.ScanOverrunsExample | AprioriAlgorithm.cpp:172-174 | three frequent pairs {1,2},{1,3},{1,4} pass the size test and make the scan from {1,2} read past the end; the bounded join gives {1,2,3},{1,2,4},{1,3,4} |
| Levels.RunMembers | AprioriAlgorithm.cpp:174-181 | the bounded run from f[i] holds the joins of f[i] with the consecutive later entries that agree with it |
| Levels.RunEnds | AprioriAlgorithm.cpp:174 | the bounded run from f[i] is maximal: it stops at the end of the level or at the first entry that does not agree with f[i] below its last item |
| Levels.JoinMembers | AprioriAlgorithm.cpp:173-183 | every candidate of the next level joins some f[a] with a later f[b] that agrees with it below the last item |
| Levels.JoinComplete | AprioriAlgorithm.cpp:173-183 | on a sorted level, every pair a < b that agrees below the last item yields its join as a candidate |
| Levels.JoinShape | AprioriAlgorithm.cpp:173-183 | joining a sorted level of k-itemsets gives strictly ascending (k+1)-itemsets in strictly ascending lexicographic order |
| Levels.JoinedShape | AprioriAlgorithm.cpp:176-178 | appending the last item of the later partner keeps the itemset strictly ascending, one item longer |
| Mining.MineUnfold | AprioriAlgorithm.cpp:172-186 | one round: with more than two frequent candidates the search goes on from their join one level up, otherwise it stops with them |
| Mining.FilterSound | AprioriAlgorithm.cpp:157-158 | every entry kept at level k is a frequent k-itemset with its true support |
| Mining.MineSound | AprioriAlgorithm.cpp:238-241 | every entry the rounds add from level k on is a frequent itemset of size k or more with its true support |
| Mining.MineRanked | AprioriAlgorithm.cpp:238-241 | the rounds add entries by size, then in strict lexicographic order |
| Mining.Level1Sound | AprioriAlgorithm.cpp:110-116 | each first-level entry is a frequent singleton with its true support |
| Mining.FrequentItemsetsSound | AprioriAlgorithm.cpp:230-241 | every reported entry is a non-empty ascending itemset with its true support, which reaches minSupp; entries are ordered by size then lexicographically, and no itemset appears twice |
| Mining.ThreeSubsets | AprioriAlgorithm.cpp:172 | for k >= 2, if a level holds every frequent k-itemset and some itemset of more than k items is frequent, the level holds at least three entries, so stopping at two or fewer loses nothing |
| Mining.JoinCovers | AprioriAlgorithm.cpp:173-183 | when a sorted level holds every frequent k-itemset, its join holds every frequent (k+1)-itemset |
| Mining.PairsCover | AprioriAlgorithm.cpp:119-124 | with minSupp at least 1, the pair candidates include every frequent 2-itemset |
| Mining.MineComplete | AprioriAlgorithm.cpp:238-241 | when level k's candidates include every frequent k-itemset, the rounds report every frequent itemset of size k or more |
| Mining.FrequentItemsetsComplete | AprioriAlgorithm.cpp:230-241 | with minSupp at least 1, every non-empty ascending itemset with support at least minSupp is reported with its support |
| Apriori.AprioriAlgorithm.constructor | AprioriAlgorithm.cpp:58-62 | threshold 2, not done, every container empty |
| Apriori.AprioriAlgorithm.AddRow | AprioriAlgorithm.cpp:87-90 | row r is appended to the posting list of each item of the row, and to no other list; lists are created only for the row's items |
| Apriori.AprioriAlgorithm.ReadFile | AprioriAlgorithm.cpp:83-94 | returns the rows; each item's posting list grows by exactly the ascending rows that hold it |
| Apriori.AprioriAlgorithm.Load | AprioriAlgorithm.cpp:232 | on an empty map, the stored rows are the input and the map is their posting-list index |
| Apriori.AprioriAlgorithm.FrequentKeys | AprioriAlgorithm.cpp:110-114 | the map walk in key order yields the first level, which Level1Spec characterises |
| Apriori.AprioriAlgorithm.MakePairs | AprioriAlgorithm.cpp:119-124 | the nested loop yields the pair candidates, which PairsMembers characterises |
| Apriori.AprioriAlgorithm.FirstStep | AprioriAlgorithm.cpp:107-125 | appends the first level to freqItemset and to results, and appends the pairs of freqItemset to the candidates |
| Apriori.AprioriAlgorithm.Pivot | AprioriAlgorithm.cpp:141-144 | returns the first position holding an item with the shortest posting list |
| Apriori.AprioriAlgorithm.CountFrom | AprioriAlgorithm.cpp:148-155 | counting over the pivot's posting list gives the candidate's support |
| Apriori.AprioriAlgorithm.FindSupport | AprioriAlgorithm.cpp:131-164 | freqItemset becomes the candidates that reach minSupp, with their supports (see FilterMembers), and results grows by exactly those |
| Apriori.AprioriAlgorithm.Compare | AprioriAlgorithm.cpp:193-207 | true iff the two itemsets agree at every position below the last position of the shorter one |
| Apriori.AprioriAlgorithm.JoinRun | AprioriAlgorithm.cpp:174-182 | the bounded inner scan yields the run of joins of f[i] with the following agreeing entries |
| Apriori.AprioriAlgorithm.JoinAll | AprioriAlgorithm.cpp:173-183 | the outer loop yields the whole join, which JoinMembers, JoinComplete and JoinShape characterise |
| Apriori.AprioriAlgorithm.CreateItemset | AprioriAlgorithm.cpp:167-187 | with more than two frequent itemsets the candidates become their join and done is unchanged; otherwise the candidates are cleared and done is set |
| Apriori.AprioriAlgorithm.Round | AprioriAlgorithm.cpp:239-240 | freqItemset becomes the frequent candidates of the level and results grow by them; with more than two, the candidates become their join and done stays false, otherwise the candidates are cleared and done is set; the loop state moves one level up or to done, the level staying within the number of distinct items |
| Apriori.AprioriAlgorithm.Rounds | AprioriAlgorithm.cpp:238-241 | the loop ends with done set, no candidates and at most two frequent itemsets at the last level, and results hold the goal the loop state promised |
| Apriori.AprioriAlgorithm.FirstStepAndRounds | AprioriAlgorithm.cpp:234-241 | after firstStep and the loop, done is set, no candidates remain, the last level has at most two frequent itemsets, and results are the frequent itemsets of the stored rows |
| Apriori.AprioriAlgorithm.Compute | AprioriAlgorithm.cpp:230-241 | on a fresh object the run ends with done set, the rows stored, the map their posting-list index, no candidates left and results equal to FrequentItemsets(rows, 2), which the Mining lemmas characterise |

## Left out

- File parsing: readFile's `getline`/`stringstream` reading, and the leading count token it skips. The model takes the rows already parsed.
- The clocks and runtimes, the console output, `writeToFile` and `main`. They are I/O and do not affect the results.
- Malformed rows. Every row is required to be strictly ascending (sorted, with no repeated item). `std::includes` (AprioriAlgorithm.cpp:153) needs sorted ranges, and a repeated item would put its row twice on the item's posting list (AprioriAlgorithm.cpp:89), overcounting the support of {x}.
- Apriori.AprioriAlgorithm.Compute: modelled only on a freshly constructed object (empty map and containers, not done). A second call on the same object reuses its stale state, and that is not modelled.
- Apriori.AprioriAlgorithm.FindSupport: requires every candidate item to have a map entry. `positions.at` throws otherwise. Candidates built from frequent items always satisfy this.
- `int` overflow of supports and row indices is not modelled; integers are unbounded.
- Mining.FrequentItemsetsComplete: stated for `minSupp >= 1`. With a threshold of 0 or less, itemsets with support 0 count as frequent, and the search never generates those whose items occur in no row. The class uses 2.
- Nested C++ loops are split into separate methods. The inner loops of readFile, findSupport and createItemset, and the body of compute's loop, are each their own method. Each method's contract is the invariant of the loop it replaces.
- createItemset's join is modelled with the bound `j < freqItemset.size()` (see Findings). The unbounded read past the end has no defined result to model.

## Findings

| source | as written | input that shows it | evidently intended | confidence | as-written member | corrected member |
|---|---|---|---|---|---|---|
| AprioriAlgorithm.cpp:174 | the inner join loop advances `j` while `compare(freqItemset[i].first, freqItemset[j].first)` holds, with no test `j < freqItemset.size()`; when every entry after `i` agrees with `freqItemset[i]`, it reads `freqItemset[size]`, past the end | rows {1,2}, {1,3}, {1,4}, each twice, with threshold 2: the frequent 2-itemsets are {1,2}, {1,3}, {1,4}, more than two, and the scan from {1,2} reaches index 3 | stop the scan at the end of freqItemset, giving candidates {1,2,3}, {1,2,4}, {1,3,4} | not executed | Levels.ScanOverrunsExample | Apriori.AprioriAlgorithm.JoinRun |
