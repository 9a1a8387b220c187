# Frequent itemsets, association rules and a decision tree, in Dafny

This project models two small data-mining programs and proves properties of
the models.

- **project1/new.py**, an Apriori miner. `apriori` counts single items and keeps
  those whose support meets a threshold. It then repeats three steps until a
  level yields no candidate or no frequent candidate:
  - self-join the frequent itemsets of the current level into candidates one
    item larger, dropping any candidate that contains an itemset the previous
    level pruned;
  - count, for each candidate, the transactions containing it;
  - split the candidates into the next frequent level and the next pruned set.

  `generateRules` turns every frequent itemset `I` of two or more items, and
  every frequent non-empty proper subset `A` of it, into a rule `A -> I - A`.
  The rule carries support `support(I) * 100` and confidence
  `support(I) / support(A) * 100`.
- **project2/new.py**, a decision-tree learner. `buildTree` stops in two ways:
  - with a leaf, when all labels agree;
  - with a majority leaf, when no attribute is left or the best gain ratio is
    zero.

  Otherwise it splits on the first attribute of maximal gain ratio and recurses
  on each group of records that share a value of that attribute. `classify`
  descends along the record's values. When no branch matches, it walks the
  current subtree with an explicit stack and answers the most common leaf label.

## Files

- `sets.dfy` (`Sets`): small facts about finite sets.
- `itemsets.dfy` (`Itemsets`) covers items, transactions and the two counts the
  miner uses:
  - `Occurrences` is the level-1 count. It counts every repetition of an item
    within a transaction.
  - `Cover` is the count at later levels: the number of transactions whose item
    set contains the itemset.
- `apriori.dfy` (`ItemsetMiner`) has three parts:
  - each phase of `apriori` as a function;
  - `AprioriTable`, the whole search as a function;
  - the counting, joining and splitting loops of the source as methods, each
    proved to compute its phase, and `Apriori`, the main loop, proved to
    return `AprioriTable`. The merges of each level into the result become
    map unions inside `Apriori`.

  Properties of the table are lemmas about `AprioriTable`.
- `rules.dfy` (`RuleGenerator`): `GenerateRules`, its nested loops as methods,
  `RuleSet` (the set of rules it emits), and the properties of those rules.
- `decision_tree.dfy` (`DecisionTree`) holds the tree datatype, `BuildTree` as a
  recursive function with lemmas about its result, and `Classify`. The
  stack-based fallback of `Classify` is the method `MajorityLeafLabel`.

Three behaviours of the code are worth knowing:

- **Repeated items count twice at level 1.** `apriori` counts level 1 over the
  transaction lists as read, so repetitions count. At later levels it counts
  over `set(transaction)`. So a single item can have support 1.0 without
  occurring in every transaction (`RepeatedItemMeetsFullThreshold`), and its
  support can exceed 1.0 (`RepeatedItemSupportAboveOne`). So threshold 1.0
  can keep an item that some transaction lacks: item 1 of `[[1, 1], [2]]`.
- **`generateRules` can divide by zero.** Every antecedent is looked up in the
  table, but an antecedent recorded with support 0 still raises
  `ZeroDivisionError`. That can happen only when the threshold is at most 0,
  because an itemset contained in no transaction then still meets it.
  `GenerateRules` returns the outcome `ZeroDivision` in exactly that case.
  `AprioriRulesDefined` proves the case cannot arise for a table that `apriori`
  computed with a positive threshold.
- **Pruning looks back one level only.** It checks candidates against the
  previous level's failures, and the pruned set is replaced each round, not
  extended. `Candidates`, `PrunedOf` and `MineFrom` keep exactly this.

## Model

| member | source | states |
|---|---|---|
| Itemsets.ItemsOf | project1/new.py:86 | definition: the item set of a transaction, `set(transaction)` |
| Itemsets.Occurrences | project1/new.py:40-44 | definition: how often an item occurs in all transactions, every repetition within a transaction included (the level-1 counter) |
| Itemsets.Cover | project1/new.py:85-89 | definition: the number of transactions whose item set contains the itemset (the counter of later levels) |
| Itemsets.Support | project1/new.py:48-49 | definition: `count / len(transactions)` as an exact fraction, as at lines 48-49 and 95-96 |
| Itemsets.OccursIffItem | project1/new.py:40-44 | an item gets a level-1 counter exactly when it occurs in some transaction |
| Itemsets.CoverAntiMonotone | project1/new.py:85-89 | a larger itemset is contained in no more transactions than a smaller one (anti-monotonicity of the subset count) |
| Itemsets.CoverAtMostOccurrences | project1/new.py:40-44 | the number of transactions containing an item is at most its occurrence count |
| Itemsets.CoverAtMostTransactions | project1/new.py:85-89 | no itemset is counted more often than there are transactions |
| ItemsetMiner.FrequentItems | project1/new.py:47-49 | definition: the singletons of the given items whose occurrence count divided by the number of transactions meets the threshold, mapped to that support |
| ItemsetMiner.InfrequentItems | project1/new.py:52-53 | definition: the singletons of the given items whose support is below the threshold |
| ItemsetMiner.Prunes | project1/new.py:76 | definition: some itemset of the pruned set is a subset of the candidate, the `any(pruned <= candidate ...)` test |
| ItemsetMiner.Joinable | project1/new.py:72-77 | definition: two itemsets join when they differ, their union has exactly one more item than the first, and no pruned itemset is a subset of the union |
| ItemsetMiner.Candidates | project1/new.py:70-78 | the candidates are the unions of joinable pairs of the level; none contains a pruned itemset |
| ItemsetMiner.FrequentOf | project1/new.py:92-96 | the new level is drawn from the candidates, and every value in it meets the threshold |
| ItemsetMiner.PrunedOf | project1/new.py:93-100 | the new pruned set is drawn from the candidates, and a candidate is in it exactly when it is not in the new level |
| ItemsetMiner.MineFrom | project1/new.py:64-110 | the rest of the search keeps every key of the table accumulated so far, and adds only itemsets larger than the current level |
| ItemsetMiner.AprioriTable | project1/new.py:34-112 | definition: the first level and its pruned set, then `MineFrom` from size 1 with the first level as the table so far; its properties are the lemmas below |
| ItemsetMiner.CountItems | project1/new.py:40-44 | the level-1 counter has a key for exactly the occurring items, and each count is the item's number of occurrences, repetitions included |
| ItemsetMiner.DecideItem | project1/new.py:47-53 | deciding one more item adds it to exactly one of the frequent level and the pruned set, according to the threshold |
| ItemsetMiner.SplitItems | project1/new.py:47-53 | the first level holds the singletons whose support count/len meets the threshold, with that support, and the pruned set holds the rest |
| ItemsetMiner.FirstLevel | project1/new.py:37-57 | level 1 consists of singletons of occurring items, is empty when there are no transactions, and equals the threshold split of the counts |
| ItemsetMiner.FirstLevelShape | project1/new.py:40-53 | every first-level itemset is a singleton of an occurring item; no transactions give an empty first level, so nothing is divided by zero |
| ItemsetMiner.JoinWith | project1/new.py:71-78 | joining one itemset with every itemset of the level adds exactly its joinable unions as zero-count candidates |
| ItemsetMiner.SelfJoin | project1/new.py:70-78 | the candidates are exactly the unions of two distinct level itemsets that are one item larger and contain no pruned itemset, each with count 0 |
| ItemsetMiner.CandidatesShape | project1/new.py:70-78 | every candidate from a level of k-itemsets has k+1 occurring items, is the union of two distinct itemsets of that level, and contains no pruned itemset |
| ItemsetMiner.JoinedNeedsLevel | project1/new.py:70-82 | a candidate exists only if the level is non-empty |
| ItemsetMiner.CountSupport | project1/new.py:85-89 | each candidate's counter grows by the number of transactions whose item set contains it, and no key is added or removed |
| ItemsetMiner.SplitLevel | project1/new.py:92-100 | the new level holds the candidates meeting the threshold, with their support; the new pruned set holds exactly the others |
| ItemsetMiner.NextLevel | project1/new.py:67-100 | a round finds candidates exactly when the self-join is non-empty; then it yields the frequent candidates and, as the new pruned set, the infrequent ones |
| ItemsetMiner.LevelBound | project1/new.py:64-104 | a non-empty level of (k+1)-itemsets needs at least k+1 distinct items, which bounds the number of rounds |
| ItemsetMiner.MineFromStep | project1/new.py:81-110 | a round with candidates but no frequent one ends the search; otherwise the next level has one more item per itemset, is within the item bound, and the search continues from it with the pruned set replaced |
| ItemsetMiner.MineFromDone | project1/new.py:81-82 | with no candidates the search returns the table accumulated so far |
| ItemsetMiner.Apriori | project1/new.py:34-112 | the loop returns exactly `AprioriTable`, the level-wise search stated as a function; it terminates because the level size grows by one each round up to the number of items |
| ItemsetMiner.FirstLevelRecorded | project1/new.py:47-57 | the first level meets the threshold and records occurrence-based supports |
| ItemsetMiner.RoundRecorded | project1/new.py:94-108 | merging a round's frequent candidates keeps every old entry unchanged and records subset-count supports for the new, one-item-larger entries |
| ItemsetMiner.RoundJoins | project1/new.py:70-78 | every itemset of two or more items that a round adds is the union of two distinct entries of the table, each one item smaller |
| ItemsetMiner.MineFromRecorded | project1/new.py:64-112 | the rest of the search keeps every entry at or above the threshold, never removes or changes an entry, and adds only larger itemsets |
| ItemsetMiner.MineFromJoins | project1/new.py:64-112 | throughout the search every itemset of two or more items in the table is the union of two distinct entries, each one item smaller |
| ItemsetMiner.AprioriSound | project1/new.py:34-112 | every entry meets the threshold and is a non-empty set of occurring items; its support is occurrences/len for a single item and containing-transactions/len otherwise; every entry of two or more items is the union of two distinct entries one item smaller |
| ItemsetMiner.FirstLevelComplete | project1/new.py:40-57 | the first level holds every item contained in enough transactions, and every item pruned at level 1 is contained in too few |
| ItemsetMiner.CandidateComplete | project1/new.py:70-78 | from a complete level every frequent itemset one item larger is generated as a candidate and survives the pruning check |
| ItemsetMiner.RoundComplete | project1/new.py:64-112 | a round keeps the level complete: the next level holds every frequent itemset one item larger, and every itemset it prunes is infrequent |
| ItemsetMiner.NextNonEmpty | project1/new.py:80-104 | while a frequent itemset larger than the level exists there are candidates and the next level is non-empty, so neither `break` stops the loop early |
| ItemsetMiner.MineFromComplete | project1/new.py:64-112 | from a complete level the rest of the search reaches every frequent itemset of more items |
| ItemsetMiner.AprioriComplete | project1/new.py:34-112 | an itemset of two or more items is in the result if and only if its items occur and the transactions containing it meet the threshold |
| ItemsetMiner.FrequentItemsHas | project1/new.py:47-49 | a singleton is in the first level if and only if its item is considered and its support meets the threshold |
| ItemsetMiner.AprioriSingletons | project1/new.py:40-57 | a singleton is in the result if and only if the item occurs and its occurrence-based support meets the threshold |
| ItemsetMiner.AprioriEmpty | project1/new.py:40-53 | no transactions give an empty table |
| ItemsetMiner.RepeatedItemMeetsFullThreshold | project1/new.py:40-49 | with `[[1, 1], [2]]` and threshold 1.0 item 1 is kept with support 1.0 although one transaction lacks it |
| ItemsetMiner.RepeatedItemSupportAboveOne | project1/new.py:40-49 | with `[[1, 1]]` item 1 gets support 2.0 |
| RuleGenerator.Antecedents | project1/new.py:124-131 | definition: the non-empty proper subsets of an itemset that are in the table, the combinations of sizes 1 to len-1 that pass the membership test |
| RuleGenerator.RuleFor | project1/new.py:127-134 | definition: the rule for itemset I and antecedent A is `A -> I - A` with support `table[I] * 100` and confidence `table[I] / table[A] * 100` |
| RuleGenerator.RuleSet | project1/new.py:115-135 | definition: `RuleFor` over every table itemset and every non-empty proper subset of it that is in the table; its shape is `RuleShape`, its membership `RuleSetHas` |
| RuleGenerator.NoAntecedents | project1/new.py:121-122 | an itemset of fewer than two items has no antecedent, so it yields no rule |
| RuleGenerator.CombinationRules | project1/new.py:125-134 | the combinations of one size that are in the table each add the rule with that antecedent, or the first zero-support antecedent stops with a division by zero |
| RuleGenerator.ItemsetRules | project1/new.py:121-134 | an itemset yields rules exactly when all its antecedents have non-zero support; the rules are distinct and are exactly one rule per non-empty proper subset in the table |
| RuleGenerator.GenerateRules | project1/new.py:115-135 | a division by zero is reported with the itemset and the zero-support antecedent exactly when one exists; otherwise the rules are distinct and are exactly `RuleSet` |
| RuleGenerator.RuleShape | project1/new.py:119-134 | every rule splits a table itemset of two or more items into a non-empty antecedent in the table and the disjoint non-empty rest, with support support(I)*100 and confidence support(I)/support(A)*100 |
| RuleGenerator.RuleSetHas | project1/new.py:119-134 | there is a rule `A -> B` if and only if A and B are non-empty and disjoint and both A and A+B are in the table |
| RuleGenerator.AprioriRulesDefined | project1/new.py:133 | on a table from `apriori` with a positive threshold no confidence divides by zero: the divisor is a support recorded at line 48-49 or 95-96, which is positive when it meets a positive threshold |
| RuleGenerator.RecordedAntecedent | project1/new.py:132-133 | in a table `apriori` accumulates, an itemset of two or more items has support at most 1 and at most that of any non-empty subset in the table |
| RuleGenerator.SingleAntecedent | project1/new.py:132-133 | a single-item antecedent's support is at least that of an itemset containing it |
| RuleGenerator.SetAntecedent | project1/new.py:132-133 | an antecedent of two or more items has at least the support of any itemset containing it |
| RuleGenerator.RecordedRuleBounds | project1/new.py:132-133 | for such a table with a positive threshold every rule's support and confidence lie in (0, 100] |
| RuleGenerator.AprioriRuleBounds | project1/new.py:132-133 | every rule from an `apriori` table with a positive threshold has support and confidence in (0, 100] |
| DecisionTree.MajorityFrom | project2/new.py:69 | scanning labels from a position on keeps a label whose count is maximal over all labels |
| DecisionTree.Majority | project2/new.py:69 | the majority label occurs among the labels, with a count no other label exceeds |
| DecisionTree.FirstMaxIndex | project2/new.py:72-73 | the chosen index has maximal gain, and every earlier index has strictly smaller gain (the first maximum, as `max` picks) |
| DecisionTree.Without | project2/new.py:88 | the child attribute list has exactly the parent's attributes other than the split attribute, and is shorter when that attribute was present |
| DecisionTree.Values | project2/new.py:80-87 | the branch keys are exactly the values of the split attribute among the records, each once |
| DecisionTree.ValuesInOrder | project2/new.py:80-87 | the values come in order of first appearance: every record before the first one carrying the i-th value carries one of the earlier values |
| DecisionTree.Select | project2/new.py:80-85 | the group for a value holds only records with that value and aligned labels from the input, and is non-empty when the value occurs |
| DecisionTree.SelectExact | project2/new.py:80-85 | a group holds exactly the (record, label) pairs with that value, each as often as in the input |
| DecisionTree.WithoutConcat | project2/new.py:88 | removing the split attribute distributes over concatenation, so the remaining attributes keep their list order (which decides the child's first-maximum choice) |
| DecisionTree.Node | project2/new.py:5-9 | definition: `DecisionNode` as a datatype, a leaf with its label or a split on an attribute index with its branches as an insertion-ordered list of (value, subtree) pairs |
| DecisionTree.Gains | project2/new.py:72 | definition: the `gains` list of line 72, one gain ratio per attribute in list order |
| DecisionTree.BuildTree | project2/new.py:64-92 | definition of `buildTree`: a leaf for uniform labels; a majority leaf with no attributes or zero best gain ratio; otherwise a split on the first attribute of maximal gain ratio with one branch per value in order of first appearance; its properties are the BuildTree lemmas |
| DecisionTree.Child | project2/new.py:80-90 | definition: the subtree built from the group of records with the given value, and their labels, with the split attribute removed from the attribute list |
| DecisionTree.BuildTreeUniform | project2/new.py:65-66 | equal labels give a leaf labelled `labels[0]` |
| DecisionTree.BuildTreeMajority | project2/new.py:68-77 | mixed labels with no attribute left, or a best gain ratio of zero, give a single leaf with a label of maximal count |
| DecisionTree.BuildTreeSplits | project2/new.py:72-92 | mixed labels, an attribute left, and a maximal gain ratio that is not zero give a split, not a leaf |
| DecisionTree.BuildTreeSplit | project2/new.py:72-90 | a split uses the first attribute of maximal, non-zero gain ratio; its branches are keyed by `Values` of the attribute, its distinct values in order of first appearance (the order is `ValuesInOrder`); each child is built from the non-empty group with that value, with the attribute removed |
| DecisionTree.BuildTreeLeavesFromLabels | project2/new.py:64-92 | every leaf label of the built tree is one of the input labels |
| DecisionTree.BuildTreeWellFormed | project2/new.py:79-92 | every split of the built tree has at least one branch and distinct branch keys |
| DecisionTree.BuildTreeHeight | project2/new.py:88-89 | the depth of the built tree is at most the number of attributes |
| DecisionTree.BuildTreeAttributes | project2/new.py:79-89 | splits test only listed attributes, and no split attribute is tested again below it |
| DecisionTree.BranchIndex | project2/new.py:100-101 | the found position holds the record's value and no earlier branch does; no position is found when no branch has that value |
| DecisionTree.PushBranches | project2/new.py:111-112 | pushing a split's children appends its subtrees to the stack in branch order |
| DecisionTree.SplitPushed | project2/new.py:107-112 | replacing a popped split by its subtrees keeps the leaves still to visit and removes one node |
| DecisionTree.MajorityLeafLabel | project2/new.py:103-113 | the stack walk collects every leaf label of the subtree and returns one of maximal count |
| DecisionTree.LeavesNonEmpty | project2/new.py:103-113 | a tree whose splits all have branches has a leaf, so the fallback's count is never empty |
| DecisionTree.WellFormedFallback | project2/new.py:103-113 | in a well-formed tree every fallback reached has a label to return |
| DecisionTree.Classified | project2/new.py:94-113 | definition of what `classify` may answer: a leaf's label; the answer of the branch whose key is the record's value; else a label of maximal count among the current subtree's leaves |
| DecisionTree.Classify | project2/new.py:94-113 | a leaf answers its label; a matching branch answers that subtree's answer; otherwise the answer is a label of maximal count among the leaves of the current subtree |
| DecisionTree.ClassifiedIsLeafLabel | project2/new.py:94-113 | every answer of `classify` is the label of some leaf of the tree |
| DecisionTree.PredictionIsTrainingLabel | project2/new.py:64-113 | a tree built from training labels only predicts training labels |

## Left out

- The `main` functions, `readDataset` and `writeResults`: command-line arguments, file input and output, and the output formatting.
- The rounding `round(.., 2)` of rule support and confidence, and all floating point: supports are exact rationals `count / len(transactions)`, so `RuleGenerator.RuleShape` and the bounds lemmas are about the exact values.
- The optional sort of the first level: it changes only dictionary iteration order.
- ItemsetMiner.Apriori: dictionaries are modelled as maps and the search's iteration order is not modelled; the result is a map, so the order cannot be observed in it.
- RuleGenerator.GenerateRules: the order of the emitted rules, which follows dictionary and `combinations` iteration order, is not stated; the contract fixes which rules are emitted and that none repeats. On a division by zero it names one zero-support antecedent, not necessarily the one the source would meet first.
- The bodies of `entropy` and `gainRatio`: the gain ratio is an arbitrary function passed to `BuildTree`, since its logarithms are floating-point arithmetic.
- DecisionTree.MajorityLeafLabel: the contract promises a label of maximal count, not which of several tied labels `Counter.most_common` returns; `Majority` computes the first-occurring one.
- DecisionTree.Classify: it requires that every split met on the way down tests a field the record has, and that a fallback subtree has a leaf, since the source raises an exception otherwise; `WellFormedFallback` and `BuildTreeWellFormed` show that trees from `BuildTree` meet the second condition.
- DecisionTree.BuildTree: it requires non-empty, aligned records and labels and valid attribute indices, which the source assumes of its input; every recursive call meets them because groups are non-empty.
- `DecisionNode` as a mutable object: a tree is an immutable datatype, and the branch dictionary becomes an insertion-ordered list of (value, subtree) pairs.
