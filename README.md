# Blocked-ELL conversion of a sparse matrix, modelled in Dafny

`spmm_csr_example.c` reads a Matrix Market coordinate file and converts the
matrix in three steps. First it loads the triplets into COO arrays `I`, `J`,
`V`, expanding a symmetric matrix's stored half into both halves. Then it
builds CSR storage (`rowPtr`, `colIndex`, `values`). Finally it builds
cuSPARSE's Blocked-ELL layout, with blocks of `blockSize x blockSize`:

- `findMaxNnz` computes the width `ellCols`;
- `createBlockIndex` fills the column-index array of `nb = ellCols / blockSize`
  slots per block-row, using a sorted linked list (`insertNode`);
- `createValueIndex` writes the values into a `numRows x ellCols` buffer.

The model follows the C code loop by loop. Each function is a method with
the same loops, and its contract ties it to a specification function. The
properties the code promises are proved as lemmas about those functions.

Input arrays are Dafny sequences. Output arrays are built in local Dafny
arrays and returned as sequences. The `float` values are only ever copied,
so they have a type parameter `V`.

Modules, one per stage:

- `SortedList`: `insertNode`, on the sequence of values reachable from the
  head.
- `MatrixMarket`: the type-code dispatch and the two loading paths of `main`.
- `Csr`: the COO to CSR conversion of `main`.
- `Blocks`: the block geometry shared by the stages. This includes linear
  recursive forms of `*`, `/` and `%` (`Times`, `Quot`, `Rem`) that the cell
  arithmetic is written with.
- `Capacity`: `findMaxNnz`.
- `BlockIndex`: `createBlockIndex`.
- `ValueIndex`: `createValueIndex`.

Where the code does something its names and comments evidently do not
intend, two things are modelled:

- the code as written, with a lemma that names an input showing the
  difference;
- a corrected version, with the intended property proved.

The rest of the model uses the corrected version. See "## Findings".

## Model

| member | source | states |
|---|---|---|
| SortedList.SortedInsert | spmm_csr_example.c:28-44 | reference insertion: `v` in front of the first element not smaller than it; one element longer |
| SortedList.InsertNode | spmm_csr_example.c:19-45 | the walk past smaller elements and the splice at the head or after `prev` yield exactly `SortedInsert(head, value)` |
| SortedList.InsertSplices | spmm_csr_example.c:31-43 | the insertion is `s[..p] + [v] + s[p..]` for the first position `p` whose element is not smaller than `v` |
| SortedList.InsertMultiset | spmm_csr_example.c:19-45 | the list gains exactly one occurrence of `value` and keeps every old element; duplicates are not rejected |
| SortedList.InsertMembers | spmm_csr_example.c:19-45 | a value is in the new list iff it was in the old one or is `value` |
| SortedList.InsertPreservesAscending | spmm_csr_example.c:31-43 | an ascending list stays ascending |
| SortedList.InsertPreservesStrict | spmm_csr_example.c:105-107 | inserting a value not yet present keeps a strictly ascending list strictly ascending (the flag array guarantees it is new) |
| SortedList.StrictCard | spmm_csr_example.c:112-117 | a strictly ascending list has as many nodes as distinct values, so the drain writes one slot per block-column |
| MatrixMarket.Dispatch | spmm_csr_example.c:184-253 | iff: the four general coordinate codes take the copy path; the four symmetric codes, `MCCH` and `MCRK` take the expansion path; every other code is refused |
| MatrixMarket.Loaded | spmm_csr_example.c:193-203 | an entry is shifted from 1-based to 0-based, and its value is 1 in a pattern matrix |
| MatrixMarket.LoadAll | spmm_csr_example.c:191-204 | the loaded entries, one per input entry, in input order |
| MatrixMarket.LoadCoo | spmm_csr_example.c:184-253 | refused codes load nothing; the copy path yields the loaded entries; the expansion path yields them followed by the mirrors of the off-diagonal ones |
| MatrixMarket.LoadGeneral | spmm_csr_example.c:186-204 | the triplet arrays hold exactly the loaded entries |
| MatrixMarket.LoadSymmetric | spmm_csr_example.c:211-247 | the first `nz + i_index` slots hold the loaded entries, then the mirror of each off-diagonal entry, in input order |
| MatrixMarket.StoreEntry | spmm_csr_example.c:220-245 | one iteration keeps the entries read so far at their own index and their mirrors from `nz` on, and moves `i_index` on exactly for an off-diagonal entry |
| MatrixMarket.Store | spmm_csr_example.c:241-243 | one slot of the three triplet arrays is written and nothing else changes |
| MatrixMarket.LoadStep | spmm_csr_example.c:230-245 | the stored prefix and the mirror block both grow by the iteration's entries, and the mirror count grows by one iff the entry is off the diagonal |
| MatrixMarket.LoadStepDiagonal | spmm_csr_example.c:230-235 | a diagonal entry extends the stored prefix and leaves the mirrors unchanged |
| MatrixMarket.LoadStepOff | spmm_csr_example.c:236-245 | an off-diagonal entry extends the stored prefix, and its mirror extends the mirror block |
| MatrixMarket.ProgressStart | spmm_csr_example.c:212-216 | before the loop nothing needs to be stored |
| MatrixMarket.ProgressDone | spmm_csr_example.c:246-247 | after the loop, the first `nz + i_index` slots are the expansion |
| MatrixMarket.Expanded | spmm_csr_example.c:247 | the `nz + i_index` triplets kept after the loop are the expansion of the entries read |
| MatrixMarket.ExpandFits | spmm_csr_example.c:212-247 | `Mirrors`, the entries appended from `nz` on, number at most one per entry read; `Expand`, the triplets the path leaves, keeps the entries read at their own indices and fits the `2 * nz` cells allocated |
| MatrixMarket.MirrorsStep | spmm_csr_example.c:230-245 | one more entry adds its mirror iff it is off the diagonal |
| MatrixMarket.MirrorsCount | spmm_csr_example.c:247 | the final `nz` is the number read plus the number of off-diagonal entries |
| MatrixMarket.MirrorAt | spmm_csr_example.c:241-244 | the mirror of entry `i` sits at `nz` plus the number of off-diagonal entries before it |
| MatrixMarket.MirrorsPrefix | spmm_csr_example.c:241-244 | the mirrors are appended in input order |
| MatrixMarket.MirrorsOf | spmm_csr_example.c:230-245 | every added entry is the mirror of an off-diagonal input entry, so diagonal entries appear once |
| MatrixMarket.MirrorsHave | spmm_csr_example.c:236-245 | every off-diagonal entry's mirror is added |
| MatrixMarket.ExpandComplete | spmm_csr_example.c:207-247 | the expansion completes the matrix: with a self-inverse value map, the transposed partner of every off-diagonal entry is present |
| MatrixMarket.PatternValuesAreOne | spmm_csr_example.c:220-222 | in a pattern matrix every loaded and mirrored value is 1 |
| MatrixMarket.MirrorValue | spmm_csr_example.c:243 | the mirror's value: negated for `MCRK`, copied for every other code |
| MatrixMarket.MirrorValueCopies | spmm_csr_example.c:243 | every code but `MCRK` copies the value into the mirror |
| MatrixMarket.SkewMirrorKeepsSign | spmm_csr_example.c:243 | as written, the mirror of a skew-symmetric entry keeps its sign; the corrected mirror is negated |
| Csr.BuildCsr | spmm_csr_example.c:261-272 | `rowPtr[r]` counts the entries of rows below `r`: it starts at 0, ends at `nz`, and each row's range has that row's count; `colIndex` and `values` are verbatim copies; with non-negative columns the result is well formed |
| Csr.CountEntry | spmm_csr_example.c:264-268 | one iteration of the counting loop copies entry `i`'s column and value and adds it to its row's count, kept in `rowPtr[row + 1]` |
| Csr.PrefixSum | spmm_csr_example.c:270-272 | the in-place prefix sum turns per-row counts into row starts |
| Csr.PrefixCounts | spmm_csr_example.c:265-272 | the row starts begin at 0, end at the entry count, grow by each row's count and never decrease |
| Csr.SortedRowsOccupyRange | spmm_csr_example.c:256-272 | iff: for row-sorted triplets, the range of row `r` holds exactly the entries of row `r` |
| Csr.SortedPrefixBelow | spmm_csr_example.c:256-272 | iff: in row-sorted triplets, the entries below row `r` are exactly the first `rowPtr[r]` |
| Csr.AsWrittenPrefixTargets | spmm_csr_example.c:270-271 | the cells the prefix loop as written updates: `rowPtr[i + 1]` for `i` up to and including `numRows` |
| Csr.PrefixSumReadsPastEnd | spmm_csr_example.c:261-271 | the last of those cells lies past the `numRows + 1` allocated |
| Blocks.CeilDiv | spmm_csr_example.c:83-85 | the number of block-rows `mb` is the least `m` with `n <= m * blockSize` |
| Blocks.CeilDivAtMost | spmm_csr_example.c:128-130 | there are never more block-rows than rows |
| Blocks.BlockRowStarts | spmm_csr_example.c:97-101 | every block-row below `mb` starts at an existing row |
| Blocks.BlockRowEnd | spmm_csr_example.c:97-101 | the rows of block-row `i` end at `blockSize * i + blockSize` or at `numRows`, whichever comes first |
| Blocks.BlockSetAppend | spmm_csr_example.c:103-108 | one more entry adds its block-column to the set touched |
| Blocks.ConcatSegment | spmm_csr_example.c:112-118 | segments of `nb` cells laid end to end put segment `i` at `[i * nb, i * nb + nb)` |
| Capacity.ScanCountBound | spmm_csr_example.c:66-72 | `Scan`, the `flag`/`number_of_cols` scan of one row (reused at lines 137-147), counts at most one block per entry |
| Capacity.CounterStep | spmm_csr_example.c:69-72 | one step of the scan: an entry at or past `flag` counts a block and moves `flag` past it; an entry below it changes neither |
| Capacity.ScanSortedRepeat | spmm_csr_example.c:69-72 | in a sorted row, an entry below `flag` is in a block-column already counted, so skipping it loses no block |
| Capacity.ScanBoundary | spmm_csr_example.c:69-72 | `flag` is 0 until something is counted, and then the first column past the last counted block |
| Capacity.ScanStrict | spmm_csr_example.c:65-76 | the counted block-columns strictly increase |
| Capacity.ScanCountsTouched | spmm_csr_example.c:65-76 | every counted block-column is one the row touches |
| Capacity.ScanSorted | spmm_csr_example.c:65-76 | on a row with non-decreasing columns, the counted block-columns are exactly those touched |
| Capacity.RowCountBound | spmm_csr_example.c:65-76 | `number_of_cols` never exceeds the number of distinct block-columns of the row, and equals it when the row is sorted |
| Capacity.FindMaxNnz | spmm_csr_example.c:58-79 | returns a non-negative multiple of `blockSize` whose quotient bounds every row's `number_of_cols` and, when positive, equals that of some row; 0 when every row is empty |
| BlockIndex.CollectRow | spmm_csr_example.c:103-109 | after a row, the list is strictly ascending and holds the distinct block-columns seen so far, and the flags mark exactly the listed ones |
| BlockIndex.CollectBlockRow | spmm_csr_example.c:94-110 | the list of block-row `i` is strictly ascending and holds exactly its distinct block-columns |
| BlockIndex.Drain | spmm_csr_example.c:112-117 | the list is moved, head first, into the cells from `ctr` on, and no other cell changes |
| BlockIndex.DrainStep | spmm_csr_example.c:112-118 | after the drain and the reset of `ctr`, the block-row's `nb` slots list its block-columns followed by -1, and later cells are still -1 |
| BlockIndex.SlotBounds | spmm_csr_example.c:118 | `ctr = i * nb + nb` stays inside the `mb * nb` cells and is where the next block-row starts |
| BlockIndex.RowsListedAppend | spmm_csr_example.c:92-120 | each finished block-row adds one correctly listed segment |
| BlockIndex.ListBlockRow | spmm_csr_example.c:94-118 | one block-row: its sorted list is drained into its `nb` slots from `ctr = i * nb`, the rest stay -1, and `ctr` moves to `i * nb + nb` |
| BlockIndex.SegmentsLaidOut | spmm_csr_example.c:87-122 | the finished segments give every block-row its slots |
| BlockIndex.CreateBlockIndex | spmm_csr_example.c:81-123 | the array has `mb * nb` cells, and block-row `t`'s slots `[t * nb, t * nb + nb)` list its distinct block-columns strictly ascending, then -1 padding |
| BlockIndex.FindMaxBlockRowNnz | spmm_csr_example.c:58-79 | the capacity `createBlockIndex` needs: a multiple of `blockSize` whose quotient bounds the number of distinct block-columns of every block-row and, when positive, equals that of some block-row |
| BlockIndex.RowSizedFlagOverrun | spmm_csr_example.c:94-105 | a matrix with one block-row and an entry in block-column 1, which indexes the one-cell flag array past its end |
| BlockIndex.RowCapacityTooSmall | spmm_csr_example.c:58-118 | each row touches one block-column, so `nb` is 1, yet block-row 0 touches two |
| ValueIndex.ScatterRowsIsScatter | spmm_csr_example.c:134-150 | writing rows one entry at a time equals scattering all their targets and values at once |
| ValueIndex.ScatterPartIsScatter | spmm_csr_example.c:142-148 | the same, part way through a row |
| ValueIndex.ScatterLast | spmm_csr_example.c:143 | a cell holds the value of the last write that targets it |
| ValueIndex.ScatterUntouched | spmm_csr_example.c:127 | a cell no write targets keeps the zero of the fresh buffer |
| ValueIndex.SlotOf | spmm_csr_example.c:112-118 | the position of a block-column among a block-row's slots, or -1 iff it is not listed |
| ValueIndex.EllCellInRow | spmm_csr_example.c:143 | a found cell lies in its own row of the value buffer |
| ValueIndex.EllCellInjective | spmm_csr_example.c:143 | distinct (row, column) pairs get distinct cells |
| ValueIndex.EntryInBlockRow | spmm_csr_example.c:134-142 | an entry of row `r` lies in block-row `r / blockSize`, whose block-columns include its own |
| ValueIndex.EntryListed | spmm_csr_example.c:94-118 | with the array `createBlockIndex` builds, a stored entry's block-column is among its block-row's slots |
| ValueIndex.EllCellListed | spmm_csr_example.c:143 | a cell is found as soon as the block-row lists the column's block-column |
| ValueIndex.EllCellFound | spmm_csr_example.c:143 | with the array `createBlockIndex` builds, every stored entry's cell is found |
| ValueIndex.EllCellInBuffer | spmm_csr_example.c:127-143 | the found cell of a stored entry lies in its row, inside the `numRows * ellCols` cells |
| ValueIndex.CreateValueIndex | spmm_csr_example.c:125-153 | the corrected builder: the buffer is the scatter of every value to its Blocked-ELL cell, in visiting order |
| ValueIndex.ScatterRow | spmm_csr_example.c:142-148 | one row's entries are written to their Blocked-ELL cells |
| ValueIndex.WriteEntry | spmm_csr_example.c:143 | one iteration of the corrected entry loop writes value `k` at its Blocked-ELL cell |
| ValueIndex.CreateValueIndexAsWritten | spmm_csr_example.c:125-153 | the builder as written: the buffer is the scatter of every value to `AsWrittenTarget` |
| ValueIndex.ScatterRowAsWritten | spmm_csr_example.c:137-148 | the loop with `flag` and `ctr` writes each entry at `AsWrittenTarget` |
| ValueIndex.EntryAsWritten | spmm_csr_example.c:143-147 | one iteration as written: value `k` goes to `AsWrittenTarget`, then `flag` and `ctr` move past entry `k` as the row's scan does |
| ValueIndex.BlockRowsDone | spmm_csr_example.c:134-140 | after block-row `i`, the rows done are those of the next block-row's predecessors, or all of them |
| ValueIndex.ValueLandsInCell | spmm_csr_example.c:143 | every stored value ends in its own cell, in its own row, unless a later entry of the row repeats its column |
| ValueIndex.LaterCellsDiffer | spmm_csr_example.c:134-148 | when a row does not repeat a column later, no later entry of any row targets that entry's cell |
| ValueIndex.LastWriteStays | spmm_csr_example.c:143 | for any target, a value whose cell no later entry targets is what the buffer keeps there |
| ValueIndex.NoWriteStaysZero | spmm_csr_example.c:127 | for any target, a cell no entry targets keeps zero |
| ValueIndex.UntouchedCellsZero | spmm_csr_example.c:127 | every cell that is no stored entry's cell holds zero, the padding of the format |
| ValueIndex.AsWrittenCell | spmm_csr_example.c:143-147 | the cell the code writes (`AsWrittenTarget`): the column's offset in its block plus `blockSize` times the blocks the row's scan counted before the entry, so it lies in block `n` of the buffer and has no row offset |
| ValueIndex.AsWrittenRowsCollide | spmm_csr_example.c:143 | as written, entries of two rows in block-column 0 both go to cell 0; their Blocked-ELL cells are 0 and 2 |
| ValueIndex.AsWrittenSecondWritePastEnd | spmm_csr_example.c:143-147 | as written, the second entry of a one-block row goes to cell 3 of a two-cell buffer |
| ValueIndex.SecondWriteInPlace | spmm_csr_example.c:143-147 | the same two entries land in Blocked-ELL cells 0 and 1 |
| ValueIndex.ColumnsClearOverrun | spmm_csr_example.c:132 | with blocks wider than one column, `numRows * ellCols` exceeds the `mb * nb` cells of the column-index array |

## Left out

- Reading the file is left out: `fopen`, the banner, the size line and every `fscanf`. The caller supplies the type code and the entries as read. The added `numCols` parameter stands for the column count of the size line.
- The null terminator written at `matcode[4]` is left out, and so is the banner parser. `mmio.h` and `mmio.c` are not part of this model.
- Imaginary parts are left out. A complex entry keeps only the value read first, because the rest of its line is skipped. The Hermitian mirror then has no imaginary part to conjugate.
- `isSorted` and `quicksort` are not part of this model. The CSR range lemmas take "rows non-decreasing" as a hypothesis.
- `printf`, the CUDA and cuSPARSE headers, and `createRandomArray` are left out. They are output, foreign code, and a constant fill.
- Allocation failure, `exit(1)` and `free` are left out. Allocation is total, and refused type codes return `supported == false`.
- C `int` overflow is left out. Integers are unbounded; the sizes involved (`numRows * ellCols`, `2 * nz`) would wrap only for enormous inputs.
- The unused `num_blocks` in `findMaxNnz` and `A_num_blocks` in `main` are left out.
- The loop printing `hA_values` at the end of `main` is left out.
- SortedList.InsertNode: node allocation and pointer splicing are not modelled. The list is the sequence of values reachable from `head`, so aliasing of nodes is not captured.
- Csr.BuildCsr: the row of every triplet must lie in `[0, numRows)`. The code indexes `rowPtr` by it unchecked. The prefix loop stops at the last row rather than one past it (see Findings).
- BlockIndex.CollectBlockRow: the flag array has one cell per block-column of the matrix, not one per block-row (see Findings).
- BlockIndex.CreateBlockIndex: it requires every block-row to have at most `nb` distinct block-columns. `FindMaxBlockRowNnz` guarantees this and `findMaxNnz` does not (see Findings).
- ValueIndex.CreateValueIndexAsWritten: a write whose target lies outside the buffer is skipped, where the C code writes out of bounds. The `memset` of the column-index array is not performed; `ColumnsClearOverrun` states its overrun instead.
- ValueIndex.CreateValueIndex: the corrected builder leaves the column-index array as `createBlockIndex` built it, rather than clearing it.
- MatrixMarket.MirrorValue: the value type is generic, so negation is a parameter `negate`.

## Findings

| source | as written | input that shows it | evidently intended | confidence | as-written member | corrected member |
|---|---|---|---|---|---|---|
| spmm_csr_example.c:270-271 | the prefix loop runs `i` up to `A_num_rows` and updates `rowPtr[i + 1]` | any matrix: the last iteration touches `rowPtr[numRows + 1]`, one past the `numRows + 1` cells | stop at `i < A_num_rows` | not executed | Csr.PrefixSumReadsPastEnd | Csr.PrefixSum |
| spmm_csr_example.c:94-105 | `flag` has `mb` cells (block-rows) and is indexed by block-column | 2 x 4 matrix, `blockSize` 2, one entry at column 2: `mb` is 1, index is 1 | one flag per block-column | not executed | BlockIndex.RowSizedFlagOverrun | BlockIndex.CollectBlockRow |
| spmm_csr_example.c:58-118 | `nb` comes from the largest per-row block count, but a block-row's segment must hold the union of its rows | rows `{0}` and `{2}`, `blockSize` 2: each row counts 1 block, so `nb` is 1, but block-row 0 has 2; the drain writes past the block-row's `nb` slots, into the next segment when there is one and past the end of the array for the last block-row, as here (`hA_columns[1]` of a one-cell array) | capacity from the largest per-block-row count | not executed | BlockIndex.RowCapacityTooSmall | BlockIndex.FindMaxBlockRowNnz |
| spmm_csr_example.c:143 | the value cell has no row offset `id * ell_cols` | entries (0,0) and (1,0), `blockSize` 2: both values go to cell 0 | row `id` of the `numRows x ellCols` buffer | not executed | ValueIndex.AsWrittenRowsCollide | ValueIndex.ValueLandsInCell |
| spmm_csr_example.c:143-147 | `ctr` counts the entry's own block only after the write, and counts blocks of the row rather than slots of the block-row | one row with columns 0 and 1, `blockSize` 2: `ellCols` is 2 and the second value goes to cell 3 | the slot of the entry's block-column among its block-row's slots | not executed | ValueIndex.AsWrittenSecondWritePastEnd | ValueIndex.SecondWriteInPlace |
| spmm_csr_example.c:132 | `memset` clears `num_rows * ell_cols` ints of the column-index array | any matrix with an entry and `blockSize` at least 2: the array has only `mb * nb` cells | leave the column-index array alone | not executed | ValueIndex.ColumnsClearOverrun | ValueIndex.CreateValueIndex |
| spmm_csr_example.c:243 | the mirror of a skew-symmetric (`MCRK`) entry copies the value | entry (2, 1) = 3: the mirror (1, 2) gets 3 instead of -3 | negate the value for `MCRK` | not executed | MatrixMarket.SkewMirrorKeepsSign | MatrixMarket.MirrorValue |
