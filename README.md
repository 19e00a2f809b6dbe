# nada-data, modelled in Dafny

nada-data is a small Python library of data-structure and algorithm
building blocks for Nada programs, whose values are secret-shared
integers owned by a set of parties. This project models its core:

- **Values** (`values.dfy`): a secret, public or plain integer, a raw Python
  `int`, or anything else, each with the parties that own it. Values support
  `if_else` selection, `+` and the `item - item` zero. The module also has the
  error kinds (`TypeError`, `ValueError`, `IndexError`) and Python's index
  rules for item access and `list.insert`.
- **Padding** (`utils.dfy`): `next_power_of_two`. The scan is an imperative
  method, proved equal to the least power of two that is at least `n`.
- **The odd-even merge sorting network** (`network.dfy`, `merge_model.dfy`,
  `simulation.dfy`, `sortedness.dfy`): Batcher's compare-exchange schedule is
  written as a function from `(lo, n)` to a list of index pairs and run over a
  sequence. Sortedness and permutation are proved for every input through the
  0-1 principle. For a power-of-two block, the network is shown to compute a
  recursive merge sort.
- **Array and table sorts** (`array_sort.dfy`, `table_sort.dfy`): the
  in-place recursive `_compare_exchange` / `_odd_even_merge` /
  `_odd_even_sort` of the array and table packages. These are methods over an
  `array`, each proved to apply exactly the network schedule. Their results
  are ordered permutations of the input.
- **Aggregation** (`agg.dfy`): `_shift_agg` is a forward scan that carries
  a running sum, maximum or minimum down each run of equal keys. It is proved
  against a per-row reference definition. After sorting by key, each key
  group's last row holds the fold of the group and every other group row
  holds zero.
- **Filters, maximum and minimum** (`filter.dfy`): the comparison filters of
  the three filter modules, and the array `nada_max` / `nada_min`.
- **Sums** (`sums.dfy`): `sum_nada_array` and `basic_ops.nada_sum` start from
  the first element unchecked. `nada_sum.py` first picks a starting element by
  class priority.
- **Containers** (`nada_array.dfy`, `nada_table.dfy`): the current
  `NadaArray` and `NadaTable` classes and the legacy ones, as Dafny classes
  whose methods update their fields in place. Each method states its whole new
  state, including the party set it maintains and its error outcomes.

The model reproduces some behaviour of the source faithfully, even where it
looks surprising:

- `NadaArray.__setitem__` never updates the array's parties (`SetItemDesyncs`
  shows the stored set can then differ from the elements' union).
- `NadaArray([])` (an empty list argument) raises `IndexError`.
- The current `NadaTable` constructor does not check that its column names
  are distinct.
- `set_data` does not reset the table's parties.
- On equal keys, an ascending compare-exchange swaps and a descending one
  keeps.
- The public five-argument `odd_even_sort(values, key_col, ascending, lo, n)`
  of `functions/table/sort.py`, called with an `n` that is not a power of two,
  compares a position outside `[lo, lo + n)` (`SortPairsEscapes`).

## Model

| member | source | states |
|---|---|---|
| Values.CoerceAll | src/nada_data/nada_sum.py:43-47 | after the conversion no raw `int` is left and every number is kept; a raw `int` becomes an `Integer` owned by nobody, every other element is kept as it is |
| Values.CoerceAllKeeps | src/nada_data/nada_sum.py:43-47 | the conversion keeps the numeric total of a sequence and adds no owner to it |
| Values.SumValsAppend | src/nada_data/array/arithmetic.py:17-23 | the numeric total of a concatenation is the sum of the totals |
| Values.UnionPartiesMember | src/nada_data/array/nada_array.py:84-88 | a party is in the union of the elements' parties iff some element is owned by it |
| Values.UnionPartiesAppend | src/nada_data/array/nada_array.py:90-94 | adding elements one by one adds their parties: the union over a concatenation is the union of the unions |
| Values.NormIndex | src/nada_data/array/nada_array.py:109-122 | a Python index is valid iff `-len <= index < len`, and it then denotes position `index` or `index + len` |
| Values.InsertPos | src/nada_data/array/nada_array.py:99-107 | `list.insert` clamps its index: in range it inserts there, above the end it appends, negative counts from the end, below `-len` it inserts at the front |
| Utils.PaddedSizeSpec | src/nada_data/utils.py:3-22 | the padded size is a power of two, at least `n`, and less than `2n` for positive `n` |
| Utils.NextPowerOfTwo | src/nada_data/utils.py:3-22 | the doubling loop returns 1 for `n <= 0`, otherwise the least power of two that is at least `n` |
| Utils.PaddedSizeExamples | src/nada_data/utils.py:7-12 | the documented examples: 2 gives 2, 37 gives 64, -10 gives 1 |
| Utils.PowerOfTwoUnique | src/nada_data/utils.py:18-22 | only one power of two lies in `[n, 2n)`, so the result is determined |
| Utils.PowersOfTwoSpread | src/nada_data/utils.py:18-22 | two distinct powers of two are at least a factor of two apart |
| Network.ExchangeKeepsOrSwaps | src/nada_data/array/functions/sort.py:14-30 | a compare-exchange either leaves the values alone or swaps the two positions |
| Network.ExchangeOrders | src/nada_data/array/functions/sort.py:14-30 | after a compare-exchange of `(i, j)` the smaller value is at `i` when ascending and the larger when descending; no other position changes |
| Network.ExchangePermutes | src/nada_data/array/functions/sort.py:14-30 | a compare-exchange keeps the length and the multiset of values |
| Network.RunPermutes | src/nada_data/array/functions/sort.py:33-54 | any schedule of compare-exchanges permutes its input |
| Network.RunAppend | src/nada_data/array/functions/sort.py:49-54 | running two schedules one after the other is running their concatenation |
| Network.StrideForward | src/nada_data/array/functions/sort.py:41-44 | every pair of the merge's inner stride loop is `(i, i + r)` with `i < i + r` and stays in `[start, end)` |
| Network.MergePairsForward | src/nada_data/array/functions/sort.py:33-46 | every pair the merge compares has its lower index first |
| Network.SortPairsForward | src/nada_data/array/functions/sort.py:49-54 | every pair the sort compares has its lower index first |
| Network.SortPairsUnfold | src/nada_data/table/functions/sort.py:52-59 | sorting a block of `n > 1` sorts both halves and then merges with stride 1 |
| Network.SortPairsOpens | src/nada_data/table/functions/sort.py:52-59 | a block of power-of-two size `n >= 2` starting at `lo` opens with the exchange `(lo, lo + 1)` |
| Network.SortPairsFour | src/nada_data/array/functions/sort.py:33-54 | the schedule for four positions is `(0,1) (2,3) (0,2) (1,3) (1,2)` |
| Network.SortPairsEscapes | src/nada_data/functions/table/sort.py:53-60 | called with `n = 3`, the public `odd_even_sort` compares `(lo+1, lo+3)`, outside the block `[lo, lo+3)` |
| Network.ExchangeRowsKeyed | src/nada_data/table/functions/sort.py:11-31 | the row compare-exchange keeps the number of rows, the key column and every row's width |
| Network.ExchangeRowsPermutes | src/nada_data/table/functions/sort.py:11-31 | the row compare-exchange moves whole rows, so it permutes the rows |
| Network.ExchangeRowsKeys | src/nada_data/table/functions/sort.py:11-31 | on the key column, the row compare-exchange acts as the scalar compare-exchange |
| Network.RunRowsPermutes | src/nada_data/table/functions/sort.py:34-59 | any schedule of row compare-exchanges permutes the rows and keeps their width |
| Network.RunRowsKeys | src/nada_data/table/functions/sort.py:34-59 | the key column of the row sort is the scalar sort of the key column |
| Network.RunRowsCons | src/nada_data/table/functions/sort.py:34-49 | running a schedule row by row is running its first exchange and then the rest |
| Network.RunRowsAppend | src/nada_data/table/functions/sort.py:52-59 | running two row schedules in turn is running their concatenation |
| MergeModel.InterleaveSplit | src/nada_data/array/functions/sort.py:33-46 | splitting a sequence of even length into even and odd positions and interleaving them gives it back |
| MergeModel.FixSeqAt | src/nada_data/array/functions/sort.py:41-44 | the final stride loop of a merge, in position-free form, puts the smaller of each pair `(2k+1, 2k+2)` first and the larger second, and keeps the first and an unpaired last element |
| MergeModel.MergeSteps | src/nada_data/array/functions/sort.py:33-46 | merging two sorted 0-1 halves by odd-even merge gives a sorted 0-1 sequence with all their zeros first |
| MergeModel.SortSeqBinary | src/nada_data/array/functions/sort.py:49-54 | the recursive odd-even merge sort sorts every 0-1 sequence of power-of-two length |
| Simulation.SortPairsInside | src/nada_data/array/functions/sort.py:49-54 | for a power-of-two `n`, every pair of the sort of block `[lo, lo+n)` lies inside that block |
| Simulation.SortPairsKeeps | src/nada_data/array/functions/sort.py:49-54 | sorting a power-of-two block leaves every position outside it unchanged |
| Simulation.MergeSim | src/nada_data/array/functions/sort.py:33-46 | the in-place merge at stride `r`, seen on the positions `lo, lo+r, …`, computes the recursive odd-even merge of those values |
| Simulation.MergeBlockSim | src/nada_data/array/functions/sort.py:33-46 | the in-place merge of a power-of-two block computes the odd-even merge of the block |
| Simulation.SortSim | src/nada_data/array/functions/sort.py:49-54 | the in-place sort of a power-of-two block computes the recursive odd-even merge sort of the block |
| Sortedness.ThresholdRun | src/nada_data/array/functions/sort.py:14-30 | thresholding commutes with every compare-exchange schedule (the step of the 0-1 principle) |
| Sortedness.NegRun | src/nada_data/array/functions/sort.py:14-30 | a descending schedule is the ascending one on negated values, negated back |
| Sortedness.BinarySorted | src/nada_data/array/functions/sort.py:57-67 | padding to a power of two sorts every 0-1 input ascending |
| Sortedness.SortAscending | src/nada_data/array/functions/sort.py:57-67 | the ascending sort over the padded size leaves every input ascending |
| Sortedness.SortDescending | src/nada_data/array/functions/sort.py:57-67 | the descending sort over the padded size leaves every input descending |
| Sortedness.SortOrdered | src/nada_data/array/functions/sort.py:57-67 | in either direction, the sort's result is ordered and a permutation of its input |
| Sortedness.SortRowsOrdered | src/nada_data/table/functions/sort.py:62-65 | the table sort's rows have ordered keys and are a permutation of the input rows |
| Sortedness.OrderedUnique | src/nada_data/array/functions/sort.py:57-67 | two ordered sequences with the same elements are equal, so the sort's result is fixed by its input's multiset |
| Sortedness.SortIsOrderedPermutation | src/nada_data/array/functions/sort.py:57-67 | the sort returns exactly the ordered permutation of its input |
| Sortedness.SortExampleAscending | tests/test_array/test_functions/test_sort.py:14 | `[5,6,4,1,3,2]` sorts ascending to `[1,2,3,4,5,6]` |
| Sortedness.SortExampleDescending | tests/test_array/test_functions/test_sort.py:15 | `[5,6,4,1,3,2]` sorts descending to `[6,5,4,3,2,1]` |
| Sortedness.SortConcatAscending | test/test_functions/test_array/test_sort.py:29 | the concatenation `[1,2,3] + [2,3,4]` sorts ascending to `[1,2,2,3,3,4]` |
| Sortedness.SortConcatDescending | test/test_functions/test_array/test_sort.py:30 | the same concatenation sorts descending to `[4,3,3,2,2,1]` |
| Sortedness.SortRepeatsAscending | test/test_functions/test_array/test_sort.py:29 | `[1,2,3,2,3,4]`, with repeats, sorts ascending to `[1,2,2,3,3,4]` |
| Sortedness.SortRepeatsDescending | test/test_functions/test_array/test_sort.py:30 | `[1,2,3,2,3,4]` sorts descending to `[4,3,3,2,2,1]` |
| ArraySort.CompareExchange | src/nada_data/array/functions/sort.py:14-30 | the in-place compare-exchange writes exactly the network's exchange of `(i, j)`, and nothing when an index is out of range |
| ArraySort.OddEvenMerge | src/nada_data/array/functions/sort.py:33-46 | the recursive in-place merge applies exactly the merge schedule for `(lo, n, r)` |
| ArraySort.OddEvenSort | src/nada_data/array/functions/sort.py:49-54 | the recursive in-place sort applies exactly the sort schedule for `(lo, n)` |
| ArraySort.SortNadaArray | src/nada_data/array/functions/sort.py:57-67 | sorts over the padded size and returns the same array, now ordered in the requested direction and a permutation of its old contents |
| TableSort.CompareExchangeRows | src/nada_data/functions/table/sort.py:12-32 | the in-place row compare-exchange applies the network's row exchange: rows out of range are left alone, otherwise the two rows are kept or swapped whole according to the key |
| TableSort.ExchangeColumns | src/nada_data/functions/table/sort.py:22-32 | the column-by-column `if_else` loop leaves rows `i` and `j` either both as they were or exchanged, and touches no other row |
| TableSort.MergeRows | src/nada_data/functions/table/sort.py:35-50 | the recursive in-place row merge applies exactly the merge schedule |
| TableSort.SortRowsBlock | src/nada_data/functions/table/sort.py:53-60 | the recursive in-place row sort applies exactly the sort schedule for `(lo, n)` |
| TableSort.OddEvenSortRows | src/nada_data/table/functions/sort.py:62-65 | sorts over the padded size: the keys end ordered, the rows are a permutation of the old rows, the width is kept |
| TableSort.SortNadaTable | src/nada_data/functions/table/sort.py:63-67 | returns the same rows, sorted by the key column in the requested direction, a permutation of the old rows |
| TableSort.SortTwoAscending | tests/test_table/test_functions/test_sort.py:12-16 | `[[1,2],[3,4]]` sorted ascending on column 0 is unchanged |
| TableSort.SortTwoDescending | tests/test_table/test_functions/test_sort.py:17-21 | `[[1,2],[3,4]]` sorted descending on column 0 is `[[3,4],[1,2]]` |
| TableSort.SortThreeAscending | tests/test_table/test_functions/test_sort.py:22-26 | `[[7,8],[1,6],[9,2]]` sorted ascending on column 1 is `[[9,2],[1,6],[7,8]]` |
| TableSort.SortThreeDescending | tests/test_table/test_functions/test_sort.py:27-31 | `[[7,8],[1,6],[9,2]]` sorted descending on column 1 is unchanged |
| Aggregate.LookupNames | src/nada_data/functions/table/agg.py:10-14 | exactly the names `sum`, `max` and `min` name aggregation functions; any other name is a `ValueError` |
| Aggregate.Combine | src/nada_data/functions/table/agg.py:10-14 | `sum` adds values and joins their parties; `max` and `min` return one of the two operands, not smaller (not larger) than either |
| Aggregate.ShiftAgg | src/nada_data/functions/table/agg.py:17-29 | the in-place forward scan leaves the rows equal to the shift function of the old rows |
| Aggregate.PartialRun | src/nada_data/functions/table/agg.py:19-29 | the scan's loop invariant holds to the end: rows already passed hold their final value and the current row holds the running fold |
| Aggregate.ShiftSpec | src/nada_data/functions/table/agg.py:17-29 | the shift changes only the aggregate column, and each row's aggregate cell is zero when the next row has the same key, otherwise the fold of its run |
| Aggregate.AccIsRunFold | src/nada_data/functions/table/agg.py:19-29 | the running value at a row is the fold of the aggregate column over the run of equal keys that ends there |
| Aggregate.FoldSum | src/nada_data/functions/table/agg.py:11 | folding with `sum` gives the numeric total |
| Aggregate.FoldMax | src/nada_data/functions/table/agg.py:12 | folding with `max` gives an element not smaller than any other |
| Aggregate.FoldMin | src/nada_data/functions/table/agg.py:13 | folding with `min` gives an element not larger than any other |
| Aggregate.GroupIsRun | src/nada_data/functions/table/agg.py:37-38 | once the rows are sorted by key, the rows with a given key form one contiguous run |
| Aggregate.ShiftClosesGroup | src/nada_data/functions/table/agg.py:17-38 | on sorted rows, the last row of a key group holds the fold of the whole group |
| Aggregate.ShiftZeroesInside | src/nada_data/functions/table/agg.py:21-28 | every group row but the last has its aggregate cell zeroed |
| Aggregate.ShiftSumsGroup | src/nada_data/functions/table/agg.py:17-38 | on sorted rows, the `sum` shift puts each group's total in its last row |
| Aggregate.ShiftKeepsSum | src/nada_data/functions/table/agg.py:17-29 | the `sum` shift preserves the total of the aggregate column |
| Aggregate.StepKeeps | src/nada_data/functions/table/agg.py:21-29 | a step whose two rows have different keys changes nothing: `if_else` picks the old cells |
| Aggregate.SortedByKey | src/nada_data/functions/table/agg.py:37 | the ascending key sort yields a permutation of the rows with ordered keys |
| Aggregate.AggregatedKeepsWidth | src/nada_data/functions/table/agg.py:32-38 | aggregating keeps the number and width of the rows |
| Aggregate.AggregateAsWritten | src/nada_data/functions/table/agg.py:32-38 | as written: an unknown name is a `ValueError`, and every known name fails with `TypeError` from the three-argument sort call |
| Aggregate.AggregateRows | src/nada_data/functions/table/agg.py:32-38 | corrected: an unknown name is a `ValueError` and the rows are unchanged; a known name sorts ascending by key and shifts |
| Aggregate.AggregateSum | src/nada_data/functions/table/agg.py:41-42 | `aggregate_sum` is the corrected aggregation with `sum` |
| Aggregate.AggregateMax | src/nada_data/functions/table/agg.py:45-46 | `aggregate_max` is the corrected aggregation with `max` |
| Aggregate.AggregateMin | src/nada_data/functions/table/agg.py:49-50 | `aggregate_min` is the corrected aggregation with `min` |
| Aggregate.AggregatedGroups | src/nada_data/functions/table/agg.py:32-38 | the aggregated rows are the sorted rows with only the aggregate column changed: each group's last row holds the fold of the group and every other row holds zero |
| Aggregate.SortTestRowsOnFirst | tests/test_functions/test_table/test_agg.py:35-38 | `[[1,2],[3,4],[1,3],[3,3]]` sorted ascending on column 0 is rows 3, 1, 4, 2 |
| Aggregate.SortTestRowsOnSecond | tests/test_functions/test_table/test_agg.py:40-43 | the same rows sorted on column 1 are rows 1, 4, 3, 2 |
| Aggregate.ShiftTestRowsOnFirst | tests/test_functions/test_table/test_agg.py:35-38 | the shift of the rows sorted on column 0 zeroes the first row of each group and folds it into the second |
| Aggregate.ShiftTestRowsOnSecond | tests/test_functions/test_table/test_agg.py:40-43 | the shift of the rows sorted on column 1 folds the two rows keyed 3 together |
| Aggregate.AggregatedOnFirst | tests/test_functions/test_table/test_agg.py:35-38 | aggregating the test rows on key 0 and column 1 gives the sorted, shifted rows |
| Aggregate.AggregatedOnSecond | tests/test_functions/test_table/test_agg.py:40-43 | aggregating the test rows on key 1 and column 0 gives the sorted, shifted rows |
| Aggregate.AggregateTestRowsOnFirst | tests/test_functions/test_table/test_agg.py:34-87 | key 0: `sum` gives `[[1,0],[1,5],[3,0],[3,7]]`, `max` `[[1,0],[1,3],[3,0],[3,4]]`, `min` `[[1,0],[1,2],[3,0],[3,3]]` |
| Aggregate.AggregateTestRowsOnSecond | tests/test_functions/test_table/test_agg.py:34-87 | key 1: `sum` gives `[[1,2],[0,3],[4,3],[3,4]]`, `max` `[[1,2],[0,3],[3,3],[3,4]]`, `min` `[[1,2],[0,3],[1,3],[3,4]]` |
| Filter.Compare | src/nada_data/array/functions/filter.py:15-62 | a comparison filter keeps the item's class and parties, and yields the item when the relation holds and zero otherwise |
| Filter.PubEq | src/nada_data/basic_ops.py:49-53 | the public-equality filter yields the item when the values are publicly equal and zero otherwise |
| Filter.CompareItemOrZero | src/nada_data/nada_filter.py:8-47 | every filter returns either the item or its zero, the item exactly when the relation holds |
| Filter.CompareSplits | src/nada_data/array/functions/filter.py:15-62 | complementary filters split the item: `<` plus `>=` and `>` plus `<=` give the item, and `<=` is `<` plus `==` |
| Filter.CompareExamples | tests/test_array/test_functions/test_filter.py:32-70 | the comparator cases of the tests, such as `1 < 1` gives 0 and `2 > 1` gives 2 |
| Filter.Filtered | src/nada_data/array/functions/filter.py:65-83 | filtering keeps the length |
| Filter.FilterNadaArray | src/nada_data/array/functions/filter.py:65-83 | succeeds iff every filtered element is a secret integer, and then yields the element-wise filter; otherwise `TypeError` from the output array |
| Filter.FilterLegacy | src/nada_data/functions/array/filter.py:32-41 | each filtered element is coerced and must be a secret, public or plain integer, else `TypeError` |
| Filter.NadaFilter | src/nada_data/basic_ops.py:56-70 | the comparison value and each item are coerced before the comparator runs, and the coerced outputs must be integers, else `TypeError` |
| Filter.FilteredAppend | src/nada_data/array/functions/filter.py:65-83 | filtering a concatenation is concatenating the filtered parts |
| Filter.FilteredByComparator | src/nada_data/array/functions/filter.py:65-83 | a filter by a comparator keeps each item that satisfies the relation and zeroes the others |
| Filter.FilterExamples | tests/test_array/test_functions/test_filter.py:75-81 | the test filters of `[1,2,3]`: `< 3` gives `[1,2,0]`, `<= 3` `[1,2,3]`, `> 2` `[0,0,3]`, `>= 2` `[0,2,3]`, `== 2` `[0,2,0]` |
| Filter.FilterConcatExample | test/test_functions/test_array/test_filter.py:92-98 | filtering `[1,2,3] + [2,3,4]` by `< 3` gives `[1,2,0,2,0,0]` |
| Filter.MaxIndex | src/nada_data/array/functions/filter.py:86-96 | the maximum found by the scan is the last element of greatest value |
| Filter.MinIndex | src/nada_data/array/functions/filter.py:99-109 | the minimum found by the scan is the last element of least value |
| Filter.NadaMax | src/nada_data/array/functions/filter.py:86-96 | an empty input is an `IndexError`; otherwise the `if_else` scan returns the fold of `max` |
| Filter.NadaMin | src/nada_data/array/functions/filter.py:99-109 | an empty input is an `IndexError`; otherwise the `if_else` scan returns the fold of `min` |
| Filter.MaxIsLastLargest | src/nada_data/array/functions/filter.py:86-96 | the maximum is an element not smaller than any, and no later element is as large |
| Filter.MinIsLastSmallest | src/nada_data/array/functions/filter.py:99-109 | the minimum is an element not larger than any, and no later element is as small |
| Filter.MaxMinExample | tests/test_array/test_functions/test_filter.py:105-125 | the maximum of `[4,1,3,2,5,6,5]` is 6 and its minimum is 1 |
| Sums.FoldSumShape | src/nada_data/array/arithmetic.py:12-23 | a running `+` gives the numeric total in the first element's class, owned by all the parties |
| Sums.SumFirstUnchecked | src/nada_data/array/arithmetic.py:12-23 | an empty input is an `IndexError`; the sum fails iff some element after the first is of a class not allowed; otherwise the running sum |
| Sums.SumTotals | src/nada_data/basic_ops.py:73-83 | the running sum of one element is that element |
| Sums.FirstUnchecked | src/nada_data/array/arithmetic.py:17-20 | a public integer first followed by secret ones passes the secret-only check and sums to a public integer |
| Sums.FirstOf | src/nada_data/nada_sum.py:9-32 | the position of the first element of a class, or -1 when there is none |
| Sums.IdentifyFirstElement | src/nada_data/nada_sum.py:9-32 | the one-pass scan returns the first secret integer, else the first public one, else the first plain one, else `(-1, Integer(0))` |
| Sums.ChosenSpec | src/nada_data/nada_sum.py:9-32 | the chosen index is -1 iff no element is an integer; a public choice means no secret element, a plain choice means neither |
| Sums.NadaSum | src/nada_data/nada_sum.py:35-50 | the total of all values, in the chosen element's class, owned by every party of the converted input; an empty input gives `Integer(0)` |
| Sums.PartiesInclude | src/nada_data/nada_sum.py:43-50 | the chosen element's parties are among those of the whole input |
| Sums.SumExampleSmall | test/test_sum.py:34-37 | `[1,2,3]` totals 6 and `[1,2,3] + [2,3,4]` totals 15 |
| Sums.SumExampleLarge | tests/test_array/test_functions/test_arithmetic.py:11-14 | `[5,6]` totals 11 and `[5,6] + [7,10,5,2,9]` totals 44 |
| NadaArrays.FirstRejected | src/nada_data/array/nada_array.py:74-82 | the length of the longest admitted prefix; the element after it is rejected |
| NadaArrays.UpdateParties | src/nada_data/array/nada_array.py:84-88 | the recomputed parties are exactly those owning some element |
| NadaArrays.UnionPartiesInsert | src/nada_data/array/nada_array.py:99-107 | inserting an element anywhere adds exactly its parties |
| NadaArrays.SetItemDesyncs | src/nada_data/array/nada_array.py:109-116 | writing an element owned by a new party leaves the stored parties different from the elements' union |
| NadaArrays.NadaArray.Empty | src/nada_data/array/nada_array.py:18-30 | a new array without arguments is empty and owned by nobody |
| NadaArrays.NadaArray.New | src/nada_data/array/nada_array.py:18-30 | an empty list argument raises `IndexError`; otherwise the array is built iff every item is a secret integer, else `TypeError` |
| NadaArrays.NadaArray.Append | src/nada_data/array/nada_array.py:65-72 | a secret integer is added at the end with its parties; anything else is a `TypeError` and changes nothing |
| NadaArrays.NadaArray.Extend | src/nada_data/array/nada_array.py:74-82 | all items are checked before any is added, but the parties of the accepted prefix are added even when a later item fails |
| NadaArrays.NadaArray.Insert | src/nada_data/array/nada_array.py:99-107 | a secret integer is inserted at the clamped position with its parties added; anything else is a `TypeError` |
| NadaArrays.NadaArray.SetItem | src/nada_data/array/nada_array.py:109-116 | a secret integer replaces the indexed element; bad type is `TypeError`, bad index `IndexError`; the parties never change |
| NadaArrays.NadaArray.GetItem | src/nada_data/array/nada_array.py:118-122 | Python indexing: valid iff `-len <= index < len`, negative from the end, else `IndexError` |
| NadaArrays.NadaArray.Plus | src/nada_data/array/nada_array.py:51-55 | `+` builds a new array of the concatenation, owned by the union of the elements' parties; an empty result raises `IndexError` |
| NadaArrays.LegacyArray.Empty | src/nada_data/nada_array.py:9-21 | a new legacy array without arguments is empty |
| NadaArrays.LegacyArray.New | src/nada_data/nada_array.py:9-21 | a generator argument is a `TypeError`; otherwise the items must already be integers, since the check runs before a raw `int` is converted |
| NadaArrays.LegacyArray.Append | src/nada_data/nada_array.py:30-36 | a raw `int` is converted first; then any integer is appended and anything else is a `TypeError` |
| NadaArrays.LegacyArray.Extend | src/nada_data/nada_array.py:38-40 | items are appended one by one, so a failing item leaves the converted prefix before it in place |
| NadaArrays.LegacyArray.Insert | src/nada_data/nada_array.py:42-48 | the converted item is inserted at the clamped position, or `TypeError` |
| NadaArrays.LegacyArray.SetItem | src/nada_data/nada_array.py:50-56 | the converted item replaces the indexed element; `TypeError` or `IndexError` leave the items unchanged |
| NadaTables.RowPartiesMember | src/nada_data/table/nada_table.py:94-98 | a party owns the table iff it owns some row |
| NadaTables.RowPartiesAppend | src/nada_data/table/nada_table.py:100-104 | adding rows adds exactly their parties |
| NadaTables.RowPartiesInsert | src/nada_data/table/nada_table.py:85-92 | inserting a row anywhere adds exactly its parties |
| NadaTables.FirstMisfit | src/nada_data/table/nada_table.py:56-64 | the length of the longest prefix of arrays of the right width; the element after it is not one |
| NadaTables.MisfitError | src/nada_data/table/nada_table.py:56-64 | a non-array is a `TypeError` and an array of the wrong width a `ValueError` |
| NadaTables.CollectColumns | src/nada_data/table/nada_table.py:112-118 | column names are accepted in order until a non-`str` (`TypeError`) or a repeated name (`ValueError`); the accepted names are distinct |
| NadaTables.IndexOf | src/nada_data/table/nada_table.py:149-162 | the position of the first column with the name, or `ValueError` when there is none |
| NadaTables.ColumnIndices | src/nada_data/table/nada_table.py:175 | every selected name has its column position, or the lookup fails with `ValueError` |
| NadaTables.Pick | src/nada_data/table/nada_table.py:175 | an `IndexError` exactly when a position is past the row; otherwise the row's items at the given positions, in order, each an item of the row |
| NadaTables.PickOwners | src/nada_data/table/nada_table.py:175 | every owner of the picked items is an owner of the row |
| NadaTables.ProjectRow | src/nada_data/table/nada_table.py:175 | a projected row is a new array, owned by its own elements' parties |
| NadaTables.MapResult | src/nada_data/table/nada_table.py:174-177 | building the rows stops at the first failure and returns its error |
| NadaTables.MapResultStops | src/nada_data/table/nada_table.py:174-177 | the reported error is that of the first failing row |
| NadaTables.ProjectArray | src/nada_data/table/nada_table.py:175 | the loop that builds a projected row computes the projection function |
| NadaTables.SelectedRows | src/nada_data/table/nada_table.py:164-178 | the projected rows always fit the new table, so its construction succeeds |
| NadaTables.SelectedSpec | src/nada_data/table/nada_table.py:164-178 | select succeeds iff the table is empty or every name is a column; each output cell is the input cell of its named column |
| NadaTables.IndexOfUnique | src/nada_data/table/nada_table.py:149-162 | a name's position is at most that of any column carrying it |
| NadaTables.ColumnIndicesOf | src/nada_data/table/nada_table.py:175 | the positions found one name at a time are the positions of the whole selection |
| NadaTables.ColumnExamples | tests/test_table/test_nada_table.py:22-37 | the column lookups of the select tests, including a missing name as `ValueError` |
| NadaTables.SelectShows | tests/test_table/test_nada_table.py:22-58 | a select whose positions are known shows the picked values |
| NadaTables.SelectAB | tests/test_table/test_nada_table.py:23-26 | selecting `a, b` from `[[1,2,3],[4,5,6]]` shows `[[1,2],[4,5]]` |
| NadaTables.SelectAC | tests/test_table/test_nada_table.py:27-30 | selecting `a, c` shows `[[1,3],[4,6]]` |
| NadaTables.SelectB | tests/test_table/test_nada_table.py:31-34 | selecting `b` shows `[[2],[5]]` |
| NadaTables.SelectC | tests/test_table/test_nada_table.py:35-38 | selecting `c` shows `[[3],[6]]` |
| NadaTables.NadaTable.Init | src/nada_data/table/nada_table.py:20-29 | a table with columns and no rows is owned by nobody |
| NadaTables.NadaTable.New | src/nada_data/table/nada_table.py:20-29 | a table is built iff every row is an array of the columns' width; otherwise the first misfit's error |
| NadaTables.NadaTable.Append | src/nada_data/table/nada_table.py:66-73 | a fitting row is added at the end with its parties; otherwise its error and no change |
| NadaTables.NadaTable.Extend | src/nada_data/table/nada_table.py:75-83 | all rows are checked before any is added, but the parties of the fitting prefix are added even when a later row fails |
| NadaTables.NadaTable.Insert | src/nada_data/table/nada_table.py:85-92 | a fitting row is inserted at the clamped position with its parties |
| NadaTables.NadaTable.SetItem | src/nada_data/table/nada_table.py:43-47 | a fitting row replaces the indexed one and the parties are recomputed; an invalid row or index leaves the table unchanged |
| NadaTables.NadaTable.GetItem | src/nada_data/table/nada_table.py:49-50 | Python row indexing, `IndexError` out of range |
| NadaTables.NadaTable.DelItem | src/nada_data/table/nada_table.py:52-54 | the indexed row is removed and the parties recomputed; an invalid index is `IndexError` |
| NadaTables.NadaTable.SetColumns | src/nada_data/table/nada_table.py:120-131 | the columns are replaced by the accepted prefix of distinct `str` names; the first rejected name gives its error |
| NadaTables.NadaTable.SetData | src/nada_data/table/nada_table.py:133-141 | the rows are cleared and the new rows added when all fit; the parties are added to, never reset |
| NadaTables.NadaTable.Select | src/nada_data/table/nada_table.py:164-178 | a new table with the selected columns and the projected rows, or the error of the selection |
| NadaTables.NadaTable.Concat | src/nada_data/table/nada_table.py:180-193 | different columns are a `ValueError`; otherwise a new table with the rows of both, owned by the parties of both |
| NadaTables.NadaTable.SortBy | src/nada_data/table/nada_table.py:195-202 | on rows of one width: an unknown key column is a `ValueError`; a key position past the rows is an `IndexError` at the first exchange `(0, 1)` when there are two rows or more, and no change for one row; otherwise the rows are sorted by that column: keys ordered, rows permuted, parties kept |
| NadaTables.NadaTable.Aggregate | src/nada_data/table/nada_table.py:204-235 | on rows of one width: equal key and aggregate columns, or an unknown column, are a `ValueError`; with two rows or more, a key position past the rows is an `IndexError` with no change, and an aggregate position past them an `IndexError` after the sort; otherwise the rows become the aggregation of the old rows |
| NadaTables.LegacyProjectArray | src/nada_data/nada_table.py:149 | the projection loop of the corrected legacy select picks the named cells |
| NadaTables.LegacySelectedAsWritten | src/nada_data/nada_table.py:138-152 | as written, the legacy select succeeds only on a table without rows |
| NadaTables.LegacySelectedSpec | src/nada_data/nada_table.py:138-152 | corrected: succeeds iff the table is empty or every name is a column, and picks the named cells |
| NadaTables.LegacySelectExample | test/test_nada_table.py:22-40 | on the vector of this select test of the array-based table, applied to the list-based table: the select as written raises `TypeError`, the corrected one shows `[[1,3],[4,6]]` |
| NadaTables.LegacyTable.Init | src/nada_data/nada_table.py:8-15 | a legacy table with columns and no rows |
| NadaTables.LegacyTable.New | src/nada_data/nada_table.py:8-15 | a legacy table is built iff every row is a legacy array of the columns' width |
| NadaTables.LegacyTable.CheckData | src/nada_data/nada_table.py:52-83 | the rows are accepted iff each is a legacy array of the columns' width; otherwise the first misfit's error |
| NadaTables.LegacyTable.SetData | src/nada_data/nada_table.py:85-95 | the rows are replaced only when all rows fit |
| NadaTables.LegacyTable.AddRow | src/nada_data/nada_table.py:110-136 | a fitting row is appended; otherwise its error and no change |
| NadaTables.LegacyTable.SetColumns | src/nada_data/nada_table.py:30-50 | the columns are replaced by the accepted prefix of distinct `str` names |
| NadaTables.LegacyTable.SelectAsWritten | src/nada_data/nada_table.py:138-152 | as written, the legacy select fails on every table with rows |
| NadaTables.LegacyTable.Select | src/nada_data/nada_table.py:138-152 | corrected: a new legacy table holding the named cells of each row, or a `ValueError` for an unknown name |

## Left out

- The classes of `nada_dsl` and `nada_dsl.audit` are outside this model. Their secret, public and plain integers are merged into one `Kind` each, carried with an `int` value and a party set.
- `+` on two values: the model takes the result's class from the left operand and joins the parties. The real operator's type rules are in `nada_dsl` and are outside this model.
- `public_equals` is left as a parameter of `Filter.PubEq`. Its meaning is in `nada_dsl`.
- Variadic arguments, lists and generators are values of the `Args` datatype, and iterables are sequences. A generator's single pass is not modelled.
- Aliasing: a table row is a snapshot of its array's items and parties. The sort and the aggregation move row items and keep each position's party set, as writing through `NadaArray.__setitem__` does.
- NadaTables.NadaTable.SortBy and NadaTables.NadaTable.Aggregate: require the rows to share one width, which may differ from the number of columns. Rows of mixed widths are reachable in the source: `set_columns` checks no width, and a later `append` or `extend` adds rows of the new width. On such rows the exchange behaves as the TableSort.SortNadaTable line below says.
- Column names given to the current `NadaTable` constructor are typed as strings, so its `str` check has no failing case here.
- `__len__`, `__iter__`, `get_data` and `get_parties` are direct field reads of the model's classes. `__str__`, `__repr__`, printing and doctest running are I/O.
- `serialize_input_table`, `initialize_table_data` and the test helpers build inputs from the environment and are outside this model.
- `int(n / 2)` is modelled as exact integer halving. The two differ only for values too large for floating point.
- Obliviousness is not proved beyond the fixed, data-independent compare-exchange schedule.
- The scalar array sort is modelled on the integer values alone. On a tie, `_compare_exchange` writes the operand `y` into both slots; that is equal in value to `x` but may have other owners, and the model does not track which operand object lands where.
- The aggregation module of the table package (`src/nada_data/table/functions/`), which the table's `aggregate_sum`, `aggregate_max` and `aggregate_min` call, is not part of this model. Those methods are modelled with the corrected aggregation of `src/nada_data/functions/table/agg.py`.
- `src/nada_data/array/functions/__init__.py` only re-exports names.
- TableSort.SortNadaTable: requires the rows to have a common width, as do the other table-sort methods. The source does not check this. `_compare_exchange` (src/nada_data/functions/table/sort.py:19-32) first reads both key cells, and a row too short for the key raises `IndexError` before any write. It then copies `len(values[i])` cells. When row `j` is the shorter, that loop raises `IndexError` after the cells both rows have were exchanged. When row `i` is the shorter, nothing is raised: only its first `len(values[i])` cells are exchanged, and the rest of row `j` stays in place.
- NadaArrays.NadaArray.Plus: the right operand is always an array. `__add__` documents and type-hints a list of secret integers as well, but reads `other._data`, so a list raises `AttributeError` in the source; that exception is outside the `Error` type of the model.
- Aggregate.AggregateRows: requires the rows to have a common width. The source does not check this, and a row too short for an index would raise `IndexError`.

## Findings

| source | as written | input that shows it | evidently intended | confidence | as-written member | corrected member |
|---|---|---|---|---|---|---|
| src/nada_data/functions/table/agg.py:37 | `_aggregate` calls `odd_even_sort(values, key_col, True)`, but that function takes five arguments `(values, key_col, ascending, lo, n)` | any known aggregation name, for example `aggregate_sum` on the rows `[[1,2],[3,4],[1,3],[3,3]]`: the call raises `TypeError` before any aggregation | an ascending sort of all rows over the padded size (`sort_nada_table(values, key_col, True)`), then the shift | not executed | Aggregate.AggregateAsWritten | Aggregate.AggregateRows |
| src/nada_data/nada_table.py:149 | the legacy `select` passes a generator expression to the legacy `NadaArray`, which treats a single non-list argument as one item and type-checks the generator itself | any table with at least one row, for example columns `a, b, c` with rows `[[1,2,3],[4,5,6]]` and `select("a", "c")`: `TypeError` | build each row from the list of picked cells, giving `[[1,3],[4,6]]` | not executed | NadaTables.LegacyTable.SelectAsWritten | NadaTables.LegacyTable.Select |
