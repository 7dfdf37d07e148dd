# scran_aggregate in Dafny

A model of the aggregation kernels of libscran's `scran_aggregate`. The
library summarises a features-by-cells expression matrix in two ways.

- **Across cells.** Each cell is assigned to a group (a level of a factor). For every
  group and feature, the library reports the sum of the feature's values and
  the number of cells where the feature is detected (value strictly
  positive). Both the current revision (`aggregate_across_cells`) and the
  earlier one (`aggregate_across_cells::compute`) are modelled, including
  their row path, their column path, dense and sparse storage, the chunked
  parallel dispatch and the allocating overloads.
- **Factor combination.** Several factors are combined into one
  (`combine_factors`, present in two identical copies). The distinct label
  tuples are sorted lexicographically, each cell gets the position of its
  tuple, and each combination gets its cell count.
- **Across genes.** For every gene set and cell, the library computes the
  weighted sum of the cell's values over the set's genes
  (`aggregate_across_genes`). This file is a draft. The model follows its
  documented contract and the behaviour its unit tests expect: the column
  path, the row path (gene-major accumulation through per-gene membership
  lists), the gene universe and its subset mapping, the out-of-range error
  and averaging.

Modules, one per file:

| file | module | content |
|---|---|---|
| `lex.dfy` | `Lex` | the lexicographic comparator on label tuples and sorted enumerations |
| `combine_factors.dfy` | `CombineFactors` | the ordered map as a sorted sequence of key cells, and what the combination returns |
| `combine_factors_compute.dfy` | `CombineFactorsCompute` | the insertion, table and counting loops as methods |
| `combine_factors_examples.dfy` | `CombineFactorsExamples` | the two-factor example of the unit tests |
| `matrices.dfy` | `Matrices` | dense and sparse vectors, row- or column-preferring matrices, block extraction, chunk partitions |
| `group_stats.dfy` | `GroupStats` | per-group sums and detected counts as one definition |
| `accumulate.dfy` | `Accumulate` | the inner loops of the cell kernels |
| `aggregate_across_cells.dfy` | `AggregateAcrossCells` | the current revision of aggregation across cells |
| `compute.dfy` | `Compute` | the earlier revision |
| `gene_sets.dfy` | `GeneSets` | gene sets, the cell-major formula, the gene universe, membership lists and the gene-major sum |
| `aggregate_across_genes.dfy` | `AggregateAcrossGenes` | both traversal paths and the entry point of aggregation across genes |

Central results:

- **Path independence.** For the current revision, every path and every chunk partition
  writes exactly the per-group statistics into the caller's buffers,
  whatever those buffers held. See `AggregateAcrossCells.OverChunks` and
  `AggregateAcrossCells.Aggregate`.
- **Factor combination against a reference.** The combinations are the unique strictly sorted enumeration of the observed
  tuples. Each cell's combined index is its tuple's rank, and the counts are
  positive and sum to the number of cells. See
  `CombineFactors.MatchesSortedEnumeration`, `CombineFactors.CombinedIsRank`
  and `CombineFactors.CountsAreGroupSizes`.
- **Gene-major equals cell-major.** Accumulating the genes one at a time into every set listed for them
  gives each set's weighted sum. See `GeneSets.GeneMajorIsSetValue`. Both
  traversal paths therefore fill the buffers with the documented values; see
  `AggregateAcrossGenes.ByRow` and `AggregateAcrossGenes.ByColumn`.

How the C++ is represented:

- **Storage.** The matrix is a datatype holding its stored vectors: rows when it prefers
  rows, columns otherwise. Vectors are dense or sparse, and sparse entries
  carry distinct indices in any order, because the kernels ask for unordered
  indices.
- **Blocks.** A sparse block keeps absolute indices. This is why the current column
  path subtracts the chunk start and the earlier one does not.
- **Threads.** The thread count is replaced by an explicit partition `bounds` of the
  parallelised dimension. The chunks are processed one after the other; each
  chunk owns its positions, so the order does not matter.
- **Number types.** Expression values are `int`. Gene-set weights and gene-set sums are
  `real`.
- **Buffer length in `compute.hpp`.** Its documentation (lines 176-183) says the
  buffers have one entry per column of the input. The code indexes them by
  gene, and the model follows the code.

## Model

| member | source | states |
|---|---|---|
| Lex.LexIrreflexive | include/aggregate_across_cells/combine_factors.hpp:63-72 | no label tuple compares before itself |
| Lex.LexTransitive | include/aggregate_across_cells/combine_factors.hpp:63-72 | the comparator is transitive, so it is a valid strict order for the map |
| Lex.LexTrichotomy | include/aggregate_across_cells/combine_factors.hpp:63-81 | two tuples of equal length are equal or one is before the other; "neither before the other" is element-wise equality |
| Lex.LexAsymmetric | include/aggregate_across_cells/combine_factors.hpp:63-72 | if `a` is before `b` then `b` is not before `a` |
| Lex.SortedDistinct | include/aggregate_across_cells/combine_factors.hpp:30-37 | a strictly sorted list of combinations has no repeats |
| Lex.SortedEnumerationUnique | include/aggregate_across_cells/combine_factors.hpp:30-37 | two strictly sorted lists with the same elements are equal, so "sorted unique combinations" determines the output |
| CombineFactors.Tuples | include/aggregate_across_cells/combine_factors.hpp:53-55 | entry `f` of cell `i`'s tuple is factor `f`'s label of cell `i`; all tuples have one label per factor |
| CombineFactors.LowerBound | include/aggregate_across_cells/combine_factors.hpp:83-86 | the search position: every key before it is smaller than cell `i`, the key at it is not |
| CombineFactors.FoundIffPresent | include/aggregate_across_cells/combine_factors.hpp:84-88 | on a sorted map the lookup succeeds exactly when the cell's tuple is already a key's tuple, and then it lands on that key |
| CombineFactors.FoundIsEqual | include/aggregate_across_cells/combine_factors.hpp:74-88 | after a successful lookup the element-wise equality re-check always holds, so that branch never inserts |
| CombineFactors.InsertionPoint | include/aggregate_across_cells/combine_factors.hpp:84-88 | a new cell goes in where every earlier key is smaller and every later key larger |
| CombineFactors.InsertKeeps | include/aggregate_across_cells/combine_factors.hpp:83-89 | one pass of the insertion loop keeps the map sorted, holding every seen tuple once, keyed by its first cell |
| CombineFactors.Mapping | include/aggregate_across_cells/combine_factors.hpp:83-89 | after the first `k` cells the map is sorted, complete for those cells, and keyed by first occurrences |
| CombineFactors.LookupLandsOnOwnTuple | include/aggregate_across_cells/combine_factors.hpp:109-114 | every cell's final lookup hits a key that carries the cell's own tuple |
| CombineFactors.Combine | include/aggregate_across_cells/combine_factors.hpp:91-114 | one combined index per cell, each below the number of combinations; one label list per factor, all of equal length |
| CombineFactors.CombinationsAreKeys | include/aggregate_across_cells/combine_factors.hpp:100-107 | the combinations are the map's key tuples in key order |
| CombineFactors.CombinationsSorted | include/aggregate_across_cells/combine_factors.hpp:30-37 | the combinations are strictly increasing lexicographically |
| CombineFactors.CombinedRecoversLabels | include/aggregate_across_cells/combine_factors.hpp:55-59 | the combination a cell's index names carries exactly the cell's labels |
| CombineFactors.KeysAreObserved | include/aggregate_across_cells/combine_factors.hpp:83-89 | after the loop the key tuples are exactly the observed tuples, one key per distinct tuple |
| CombineFactors.LowerBoundIsRank | include/aggregate_across_cells/combine_factors.hpp:109-112 | a cell's lookup position is the number of distinct observed tuples before its tuple |
| CombineFactors.CombinationsAreObserved | include/aggregate_across_cells/combine_factors.hpp:56-59 | the combinations are exactly the observed tuples, as many as there are distinct ones |
| CombineFactors.CombinedIsRank | include/aggregate_across_cells/combine_factors.hpp:109-112 | a cell's combined index is the rank of its tuple among the distinct observed tuples |
| CombineFactors.TallyCounts | include/aggregate_across_cells/combine_factors.hpp:109-114 | the counting loop gives each combination the number of cells whose index names it |
| CombineFactors.TallyTotal | include/aggregate_across_cells/combine_factors.hpp:109-114 | the counts add up to the number of cells |
| CombineFactors.CountsAreGroupSizes | include/aggregate_across_cells/combine_factors.hpp:39-44 | each count is the size of its combination's cell set and is positive; the counts total `n` |
| CombineFactors.MatchesSortedEnumeration | tests/src/combine_factors.cpp:78-115 | for any strictly sorted list of exactly the observed tuples, the combinations are that list and each cell's index is its tuple's position in it |
| CombineFactors.PositionInReference | tests/src/combine_factors.cpp:99-111 | the cell whose tuple is entry `u` of the sorted reference gets combined index `u` |
| CombineFactors.TableFromReference | tests/src/combine_factors.cpp:99-113 | the label table is the sorted reference read factor by factor |
| CombineFactors.CombinedFromReference | tests/src/combine_factors.cpp:99-111 | the combined factor is each cell's position in the sorted reference |
| CombineFactors.NoFactors | include/aggregate_across_cells/combine_factors.hpp:63-89 | with no factors all cells share the empty tuple: one combination holding all `n` cells, every index zero |
| CombineFactors.SingleFactorDense | tests/src/combine_factors.cpp:14-41 | a single factor using exactly the labels `0 .. L-1` comes back unchanged, with one combination per label |
| CombineFactorsCompute.FindOrInsert | include/scran/combine_factors.hpp:89-95 | one insertion step is the map update `Insert` and keeps the map invariant |
| CombineFactorsCompute.BuildMapping | include/scran/combine_factors.hpp:89-95 | the insertion loop yields the sorted, complete, first-occurrence map |
| CombineFactorsCompute.FillTable | include/scran/combine_factors.hpp:97-113 | entry `u` of factor `f`'s list is factor `f`'s label of the `u`-th key cell |
| CombineFactorsCompute.CountCells | include/scran/combine_factors.hpp:115-120 | each cell's index is its lookup position, and the counts are the tally of those indices |
| CombineFactorsCompute.Compute | include/scran/combine_factors.hpp:67-123 | the loops return exactly the combinations and combined factor that `Combine` describes |
| CombineFactorsExamples.PairsCombined | tests/src/combine_factors.cpp:59-66 | the two-factor example's combined factor is `0 1 4 2 3 7 5 6 7` |
| CombineFactorsExamples.PairTally | tests/src/combine_factors.cpp:74-75 | counting that combined factor gives seven ones and a two |
| CombineFactorsExamples.PairLevels | tests/src/combine_factors.cpp:68-72 | the example's combinations are the eight sorted pairs |
| CombineFactorsExamples.TwoFactors | tests/src/combine_factors.cpp:59-76 | the whole expected output of the two-factor example: combined factor, combinations and counts |
| Matrices.FilterBlockDensify | include/scran_aggregate/aggregate_across_cells.hpp:178-182 | a sparse block restricted to `[s, s+l)` holds the vector's values inside the block and zero outside it |
| Matrices.BlockValues | include/scran_aggregate/aggregate_across_cells.hpp:216-221 | dense and sparse blocks carry exactly the vector's values at `[s, s+l)` |
| Matrices.SparseBlockOutside | include/aggregate_across_cells/compute.hpp:117-124 | a sparse block stands for zero outside its range |
| Matrices.RowVec | include/scran_aggregate/aggregate_across_cells.hpp:108-126 | a fetched row, of the matrix's kind, holds the feature's values across all cells |
| Matrices.ColumnVec | include/scran_aggregate/aggregate_across_cells.hpp:197-201 | a fetched column, of the matrix's kind, holds the cell's values across all features |
| GroupStats.Contribution | include/scran_aggregate/aggregate_across_cells.hpp:128-158 | a zero value contributes nothing to either statistic, which is why sparse rows may skip unlisted cells |
| GroupStats.SparseGroupTotalIsDense | include/scran_aggregate/aggregate_across_cells.hpp:131-139 | summing only the listed entries gives the dense per-group statistic |
| GroupStats.GroupDetectedCountsPositive | include/scran_aggregate/aggregate_across_cells.hpp:147-158 | the detected statistic is the number of cells of the group with a strictly positive value |
| GroupStats.GroupsPartitionRow | include/scran_aggregate/aggregate_across_cells.hpp:259-263 | when every level is below `N`, the per-group statistics over the `N` groups add up to the statistic over the whole feature |
| GroupStats.ExpectedIgnoresStorage | tests/src/aggregate_across_cells.cpp:72-79 | two storages of the same matrix have the same statistics |
| GroupStats.NumLevels | include/scran_aggregate/aggregate_across_cells.hpp:312-313 | the number of levels is the largest level plus one (zero without cells), and every cell's level is below it |
| Accumulate.RowScratch | include/scran_aggregate/aggregate_across_cells.hpp:128-139 | the cleared scratch array ends up holding each group's statistic over the fetched row, dense or sparse |
| Accumulate.WriteRow | include/scran_aggregate/aggregate_across_cells.hpp:141-144 | the scratch values are written at the row's position of every group's buffer and nowhere else |
| Accumulate.AddDense | include/scran_aggregate/aggregate_across_cells.hpp:216-230 | each dense block value's contribution is added at its offset position, other positions unchanged |
| Accumulate.AddSparse | include/scran_aggregate/aggregate_across_cells.hpp:200-214 | each sparse entry's contribution is added at its index less the shift; unlisted positions gain nothing |
| Accumulate.Transfer | include/scran_aggregate/aggregate_across_cells.hpp:234-239 | the private buffers are copied into `[s, s+l)`; the other positions keep their contents |
| AggregateAcrossCells.ByRowChunk | include/scran_aggregate/aggregate_across_cells.hpp:98-166 | the rows `[s, s+l)` of every buffer receive the group statistics; other rows are unchanged |
| AggregateAcrossCells.ByColumnChunk | include/scran_aggregate/aggregate_across_cells.hpp:168-241 | the rows `[s, s+l)` of every buffer receive the group statistics, whatever they held before; other rows are unchanged |
| AggregateAcrossCells.OverChunks | include/scran_aggregate/aggregate_across_cells.hpp:178-240 | over any partition of the features, either path fills the buffers with exactly the statistics |
| AggregateAcrossCells.Aggregate | include/scran_aggregate/aggregate_across_cells.hpp:267-287 | on caller buffers both statistics come out exact, for both storage orientations |
| AggregateAcrossCells.AggregateAllocating | include/scran_aggregate/aggregate_across_cells.hpp:306-337 | the allocating overload returns `NumLevels` vectors of per-gene sums and detected counts, or none for a statistic not requested |
| Compute.ByColumnChunk | include/aggregate_across_cells/compute.hpp:104-153 | one chunk of the earlier column path adds the statistics onto the buffers' contents at `[s, s+l)` |
| Compute.AddColumnBlock | include/aggregate_across_cells/compute.hpp:115-151 | a column's block is added at its positions: dense at offset `s`, sparse at its absolute indices |
| Compute.ByRow | include/aggregate_across_cells/compute.hpp:41-102 | the earlier row path overwrites the buffers with exactly the statistics |
| Compute.ByColumn | include/aggregate_across_cells/compute.hpp:104-153 | the earlier column path leaves each buffer holding its initial contents plus the statistic |
| Compute.ColumnPathKeepsStaleContents | include/aggregate_across_cells/compute.hpp:176-183 | on one cell holding 1, with a sums buffer already holding 5, running the column path (`ByColumn`) leaves 6, while the documented statistic is 1 and the corrected path (`OverChunks`) leaves 1 |
| Compute.Compute | include/aggregate_across_cells/compute.hpp:186-201 | the row path gives the statistics; the column path gives the initial contents plus the statistics |
| Compute.ComputeAllocating | include/aggregate_across_cells/compute.hpp:244-272 | starting from zeroed vectors, both paths return exactly the requested statistics, and an empty list for one not requested |
| GeneSets.DenominatorIsTotalWeight | tests/src/aggregate_across_genes.cpp:140-148 | the averaging denominator is the total weight of the set, counting one per gene when unweighted |
| GeneSets.PrefixWeight | tests/src/aggregate_across_genes.cpp:75-82 | an unweighted set's weight over `n` genes is `n`; a weighted set's is the sum of its first `n` weights |
| GeneSets.ConstantSetValue | include/scran_aggregate/aggregate_across_genes.hpp:128-137 | when every gene of a set holds `v`, the set's sum is `v` times its total weight |
| GeneSets.AverageOfConstant | tests/src/aggregate_across_genes.cpp:140-148 | averaging a set whose genes all hold `v` gives `v` |
| GeneSets.InsertSorted | include/scran_aggregate/aggregate_across_genes.hpp:59-68 | adding one gene to the universe keeps it sorted and without repeats, with exactly the old genes and the new one |
| GeneSets.AddGenes | include/scran_aggregate/aggregate_across_genes.hpp:62-66 | adding a set's genes gives exactly the old genes and the set's, sorted |
| GeneSets.Universe | include/scran_aggregate/aggregate_across_genes.hpp:59-68 | the universe is strictly increasing |
| GeneSets.UniverseIsUnion | include/scran_aggregate/aggregate_across_genes.hpp:59-68 | a gene is in the universe exactly when some set lists it |
| GeneSets.MembersInUniverse | include/scran_aggregate/aggregate_across_genes.hpp:59-68 | every listed gene is in the universe |
| GeneSets.UniverseWithin | include/scran_aggregate/aggregate_across_genes.hpp:88-92 | when every set's genes are rows of the matrix, so are the universe's |
| GeneSets.Occurrences | include/scran_aggregate/aggregate_across_genes.hpp:163-178 | every (set, gene, weight) occurrence names an existing set |
| GeneSets.OccurrenceSource | include/scran_aggregate/aggregate_across_genes.hpp:163-178 | every occurrence is some gene of its set, carrying that gene's weight |
| GeneSets.OccurrencesSum | include/scran_aggregate/aggregate_across_genes.hpp:128-137 | summing a set's share over all occurrences gives that set's weighted sum, and nothing for a set that does not exist |
| GeneSets.Lookup | include/scran_aggregate/aggregate_across_genes.hpp:70-79 | the mapping sends every subset gene back to its subset position |
| GeneSets.OccurrencesRouted | include/scran_aggregate/aggregate_across_genes.hpp:152-159 | every occurrence's gene is in the universe, so it has a membership list |
| GeneSets.Memberships | include/scran_aggregate/aggregate_across_genes.hpp:157-179 | one membership list per subset gene |
| GeneSets.MembershipsCount | include/scran_aggregate/aggregate_across_genes.hpp:157-179 | the lists hold one entry per occurrence, no more and no fewer; a gene occurring `c` times (in `c` sets, or repeated) has exactly `c` entries in its list |
| GeneSets.MembershipsPerGene | include/scran_aggregate/aggregate_across_genes.hpp:157-179 | each subset gene's list equals, in order, the (set, weight) entries of that gene's occurrences, and its length is the gene's multiplicity among the occurrences |
| GeneSets.EntriesOfCount | include/scran_aggregate/aggregate_across_genes.hpp:169-177 | a gene has as many entries as it has occurrences |
| GeneSets.MembershipsAreOccurrences | include/scran_aggregate/aggregate_across_genes.hpp:169-177 | each entry of gene `k`'s list is the (set, weight) of an occurrence of that gene |
| GeneSets.MembershipsBelow | include/scran_aggregate/aggregate_across_genes.hpp:163-177 | every list entry names one of the sets |
| GeneSets.EntrySumZero | include/scran_aggregate/aggregate_across_genes.hpp:182-198 | a zero value adds nothing to any set, so sparse rows may skip unlisted cells |
| GeneSets.MembershipsSum | include/scran_aggregate/aggregate_across_genes.hpp:157-215 | the gene-major total over the membership lists equals the total over the occurrences |
| GeneSets.GeneMajorIsSetValue | include/scran_aggregate/aggregate_across_genes.hpp:144-217 | gene-major accumulation gives every set its weighted sum over its genes, the cell-major formula |
| GeneSets.Remap | include/scran_aggregate/aggregate_across_genes.hpp:96-114 | each remapped position points at the subset gene the set listed |
| AggregateAcrossGenes.CheckRange | tests/src/aggregate_across_genes.cpp:176-198 | validation passes exactly when every gene index is in `[0, nrow)`; negatives and too-large indices both fail |
| AggregateAcrossGenes.CreateSubsetMapping | include/scran_aggregate/aggregate_across_genes.hpp:70-79 | the mapping spans up to the largest subset gene, inverts the subset, and is zero elsewhere |
| AggregateAcrossGenes.SetValueFromSubset | include/scran_aggregate/aggregate_across_genes.hpp:128-137 | the weighted or plain sum through remapped positions is the set's weighted sum in that cell |
| AggregateAcrossGenes.StoreCell | include/scran_aggregate/aggregate_across_genes.hpp:119-137 | one cell's value for every set is computed and stored at that cell; other cells are unchanged |
| AggregateAcrossGenes.ByColumnChunk | include/scran_aggregate/aggregate_across_genes.hpp:116-141 | the cells `[s, s+l)` receive every set's value; other cells are unchanged |
| AggregateAcrossGenes.SubsetAndMapping | include/scran_aggregate/aggregate_across_genes.hpp:88-100 | the subset is the sorted universe, within the matrix, with an inverting mapping |
| AggregateAcrossGenes.RemapSets | include/scran_aggregate/aggregate_across_genes.hpp:96-114 | every set's genes are replaced by their subset positions |
| AggregateAcrossGenes.ByColumn | include/scran_aggregate/aggregate_across_genes.hpp:81-142 | over any partition of the cells, the column path fills the buffers with exactly every set's value |
| AggregateAcrossGenes.BuildMemberships | include/scran_aggregate/aggregate_across_genes.hpp:157-179 | the membership loop builds exactly the lists `Memberships` describes, with weight one when a set is unweighted |
| AggregateAcrossGenes.AddSetMemberships | include/scran_aggregate/aggregate_across_genes.hpp:163-178 | one set's genes append their (set, weight) entries in order |
| AggregateAcrossGenes.AddMemberships | include/scran_aggregate/aggregate_across_genes.hpp:193-195 | a value is added, times each entry's weight, to each listed set at one cell |
| AggregateAcrossGenes.AddGeneRow | include/scran_aggregate/aggregate_across_genes.hpp:182-215 | one gene's row block, dense or sparse, adds its value times the weight to each listed set at each cell |
| AggregateAcrossGenes.AddDenseBlock | include/scran_aggregate/aggregate_across_genes.hpp:200-215 | every dense value of the block is distributed to the listed sets at its cell |
| AggregateAcrossGenes.AddSparseBlock | include/scran_aggregate/aggregate_across_genes.hpp:182-198 | every sparse entry is distributed at its cell; unlisted cells add nothing |
| AggregateAcrossGenes.ByRowChunk | include/scran_aggregate/aggregate_across_genes.hpp:144-217 | gene-major accumulation over a chunk of cells stores every set's weighted sum there; other cells are unchanged |
| AggregateAcrossGenes.AddSubsetGene | include/scran_aggregate/aggregate_across_genes.hpp:204-212 | adding subset gene `k` extends the gene-major totals from `k` genes to `k + 1` |
| AggregateAcrossGenes.ByRow | include/scran_aggregate/aggregate_across_genes.hpp:144-217 | over any partition of the cells, the row path fills the buffers with exactly every set's value |
| AggregateAcrossGenes.Aggregate | tests/src/aggregate_across_genes.cpp:49-82 | the out-of-range error comes exactly when some gene is outside the matrix; otherwise there is one vector per set, each cell holding the weighted sum, divided by the total weight when averaging |

## Left out

- Matrix access through tatami: extractors, oracles and the `sparse_ordered_index` option are not modelled. An extractor is modelled by `Matrices.RowVec`, `Matrices.ColumnVec` and `Matrices.Block`. The `tatami_stats::LocalOutputBuffer` class is modelled as a zeroed private buffer that is copied back at the end.
- Threads: `num_threads` and `tatami::parallelize` become an explicit partition of the parallelised dimension, processed sequentially; no concurrency is modelled.
- Floating point: sums are exact `int` (cells) or `real` (gene sets). IEEE rounding and overflow of `Sum_`/`Detected_` are not modelled.
- AggregateAcrossGenes.Aggregate: when a set's denominator is zero (an empty set, or weights summing to zero) the sum is left undivided. The C++ would divide by zero and produce NaN or infinity.
- Integer widths: `Index_`, `Combined` and `size_t` are unbounded here. The C++ leaves it to the caller to choose types wide enough for the number of combinations and genes.
- `clean_factor` and the `combine_factors` wrapper header are context outside the core. The umbrella headers, `utils.hpp` and the generated documentation are also not modelled.
- Sums and detected counts are computed in one interleaved pass in the C++. Here they are separate runs of one kernel parameterised by the statistic. The two never read each other, so the buffers come out the same.
- The ordered map in `combine_factors` is a sorted sequence of key cells, and `find` is a linear lower-bound scan. The insertion hint does not change where `std::map` places a key, so it is not modelled.
- The `aggregate_across_genes.hpp` draft does not compile. The model deviates from it as follows:
  - Undefined names (`nsubs` inside `create_subset_mapping`, `create_mapping`, `num_sets` in the row path, the `Detected_` buffer type) are read as their evident meaning.
  - The row path writes into `buffers.sums` (lines 194 and 210), but the buffers struct at line 37 declares the member `sum`. The model reads both as the one per-set output vector.
  - Line 100 takes `mapping.second` where `mapping` is already the vector half of the pair returned by `create_mapping`. The model reads it as the offset half of that pair (`sub_mapping.second`), which `create_subset_mapping` sets to 0, so set genes index the mapping directly.
  - The dense row path (lines 203-213) fetches a block of only `length` values into `vbuffer`, yet loops `cell` over `0..NC-1` and writes to absolute cell `cell`. For a chunk with `start > 0` it would read past the block and credit the wrong cells. The model adds block position `p` to cell `s + p`, as the sparse branch does with its absolute indices (`AggregateAcrossGenes.AddDenseBlock`).
  - The gene universe is an `unordered_set`, whose iteration order is unspecified; it is modelled as the sorted universe.
  - The column path computes each set's value but never stores it; the model stores it at the cell's position, as the buffers' documentation requires.
  - The row path indexes the membership lists by the loop counter over cells; the model walks the subset genes over a chunk of cells.
  - The draft has no entry point, validation or averaging. These are taken from its unit tests.
- In the row path of `aggregate_across_genes.hpp`, each chunk accumulates into zeroed private buffers and writes them back, rather than adding directly into the caller's buffers. The caller's buffers are allocated as zeros in the entry point, so the result is the same.

## Findings

| source | as written | input that shows it | evidently intended | confidence | as-written member | corrected member |
|---|---|---|---|---|---|---|
| include/aggregate_across_cells/compute.hpp:104-153 | the column path adds every column's block onto the caller's buffers without clearing them, although the documentation at lines 176-183 says the buffers "will be filled with" the statistics and the row path overwrites them | one feature, one cell holding 1 in group 0, column storage, a sums buffer that already holds 5: the buffer ends up holding 6 instead of 1 | the buffers hold the statistics whatever they held before, as the current revision does with zeroed private buffers, and as the test helper in tests/src/utils.h:4-8 demands | medium; not executed | Compute.ByColumn, Compute.ColumnPathKeepsStaleContents | AggregateAcrossCells.OverChunks |
