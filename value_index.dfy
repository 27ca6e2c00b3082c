/** The Blocked-ELL value builder `createValueIndex`: visit the entries of
    every row, block-row by block-row, and write each value into a buffer of
    `numRows * ellCols` cells that starts out zero. Where the values land is
    a target function of (row, entry); the corrected target is the entry's
    Blocked-ELL cell, found through the column-index array. */
module ValueIndex {
  import opened SortedList
  import opened Csr
  import opened Blocks
  import opened Capacity

  /** `n` copies of `v`. */
  function Fill<V>(n: nat, v: V): (s: seq<V>)
    ensures |s| == n && forall i :: 0 <= i < n ==> s[i] == v
  {
    if n == 0 then [] else Fill(n - 1, v) + [v]
  }

  /** Writing `values[i]` at `targets[i]`, in order, into `size` cells that
      start as `zero`; a target outside the buffer writes nothing. */
  function Scatter<V>(targets: seq<int>, values: seq<V>, size: nat, zero: V): (out: seq<V>)
    requires |targets| == |values|
    ensures |out| == size
  {
    if targets == [] then Fill(size, zero)
    else
      var n := |targets| - 1;
      var out := Scatter(targets[..n], values[..n], size, zero);
      if 0 <= targets[n] < size then out[targets[n] := values[n]] else out
  }

  /** The last write to a cell is the one that stays. */
  lemma {:induction false} ScatterLast<V>(targets: seq<int>, values: seq<V>, size: nat, zero: V, i: int)
    requires |targets| == |values| && 0 <= i < |targets| && 0 <= targets[i] < size
    requires forall j :: i < j < |targets| ==> targets[j] != targets[i]
    ensures Scatter(targets, values, size, zero)[targets[i]] == values[i]
  {
    var n := |targets| - 1;
    if i < n {
      ScatterLast(targets[..n], values[..n], size, zero, i);
    }
  }

  /** A cell no write targets keeps its initial `zero`. */
  lemma {:induction false} ScatterUntouched<V>(targets: seq<int>, values: seq<V>, size: nat, zero: V, p: int)
    requires |targets| == |values| && 0 <= p < size
    requires forall j :: 0 <= j < |targets| ==> targets[j] != p
    ensures Scatter(targets, values, size, zero)[p] == zero
  {
    if targets != [] {
      var n := |targets| - 1;
      ScatterUntouched(targets[..n], values[..n], size, zero, p);
    }
  }

  /** The targets of the entries `rowPtr[r]..k` of row `r`. */
  function RowTargets(target: (int, int) -> int, rowPtr: seq<int>, colIndex: seq<int>, numRows: nat, r: nat, k: int): (t: seq<int>)
    requires WellFormedCsr(rowPtr, colIndex, numRows) && r < numRows && rowPtr[r] <= k <= rowPtr[r + 1]
    ensures |t| == k - rowPtr[r]
    ensures forall j :: 0 <= j < |t| ==> t[j] == target(r, rowPtr[r] + j)
  {
    seq(k - rowPtr[r], j => target(r, rowPtr[r] + j))
  }

  /** The targets of the entries of rows `0..rows`, in visiting order. */
  function TargetsUpTo(target: (int, int) -> int, rowPtr: seq<int>, colIndex: seq<int>, numRows: nat, rows: nat): (t: seq<int>)
    requires WellFormedCsr(rowPtr, colIndex, numRows) && rows <= numRows
    ensures |t| == rowPtr[rows] - rowPtr[0]
  {
    if rows == 0 then []
    else TargetsUpTo(target, rowPtr, colIndex, numRows, rows - 1) +
         RowTargets(target, rowPtr, colIndex, numRows, rows - 1, rowPtr[rows])
  }

  /** The buffer once every entry of rows `0..rows` is written, one write
      at a time in visiting order. */
  ghost function ScatterRows<V>(target: (int, int) -> int, rowPtr: seq<int>, colIndex: seq<int>, values: seq<V>,
                                numRows: nat, size: nat, zero: V, rows: nat): (out: seq<V>)
    requires WellFormedCsr(rowPtr, colIndex, numRows) && |values| == |colIndex| && rows <= numRows
    ensures |out| == size
    decreases rows, 1, 0
  {
    if rows == 0 then Fill(size, zero)
    else ScatterPart(target, rowPtr, colIndex, values, numRows, size, zero, rows - 1, rowPtr[rows])
  }

  /** The buffer once every entry before row `r` and the entries
      `rowPtr[r]..k` of row `r` are written. */
  ghost function ScatterPart<V>(target: (int, int) -> int, rowPtr: seq<int>, colIndex: seq<int>, values: seq<V>,
                                numRows: nat, size: nat, zero: V, r: nat, k: int): (out: seq<V>)
    requires WellFormedCsr(rowPtr, colIndex, numRows) && |values| == |colIndex|
    requires r < numRows && rowPtr[r] <= k <= rowPtr[r + 1]
    ensures |out| == size
    decreases r + 1, 0, k - rowPtr[r]
  {
    if k == rowPtr[r] then ScatterRows(target, rowPtr, colIndex, values, numRows, size, zero, r)
    else
      var before := ScatterPart(target, rowPtr, colIndex, values, numRows, size, zero, r, k - 1);
      var t := target(r, k - 1);
      if 0 <= t < size then before[t := values[k - 1]] else before
  }

  /** Writing the rows one entry at a time is the scatter of all their
      targets and values at once. */
  lemma {:induction false} ScatterRowsIsScatter<V>(target: (int, int) -> int, rowPtr: seq<int>, colIndex: seq<int>,
                                                   values: seq<V>, numRows: nat, size: nat, zero: V, rows: nat)
    requires WellFormedCsr(rowPtr, colIndex, numRows) && |values| == |colIndex| && rows <= numRows
    ensures ScatterRows(target, rowPtr, colIndex, values, numRows, size, zero, rows) ==
      Scatter(TargetsUpTo(target, rowPtr, colIndex, numRows, rows), values[rowPtr[0]..rowPtr[rows]], size, zero)
    decreases rows, 1, 0
  {
    if rows > 0 {
      ScatterPartIsScatter(target, rowPtr, colIndex, values, numRows, size, zero, rows - 1, rowPtr[rows]);
    }
  }

  lemma {:induction false} ScatterPartIsScatter<V>(target: (int, int) -> int, rowPtr: seq<int>, colIndex: seq<int>,
                                                   values: seq<V>, numRows: nat, size: nat, zero: V, r: nat, k: int)
    requires WellFormedCsr(rowPtr, colIndex, numRows) && |values| == |colIndex|
    requires r < numRows && rowPtr[r] <= k <= rowPtr[r + 1]
    ensures ScatterPart(target, rowPtr, colIndex, values, numRows, size, zero, r, k) ==
      Scatter(TargetsUpTo(target, rowPtr, colIndex, numRows, r) + RowTargets(target, rowPtr, colIndex, numRows, r, k),
              values[rowPtr[0]..k], size, zero)
    decreases r + 1, 0, k - rowPtr[r]
  {
    var pre := TargetsUpTo(target, rowPtr, colIndex, numRows, r);
    if k == rowPtr[r] {
      ScatterRowsIsScatter(target, rowPtr, colIndex, values, numRows, size, zero, r);
      assert pre + RowTargets(target, rowPtr, colIndex, numRows, r, k) == pre;
    } else {
      ScatterPartIsScatter(target, rowPtr, colIndex, values, numRows, size, zero, r, k - 1);
      var row := RowTargets(target, rowPtr, colIndex, numRows, r, k - 1);
      assert RowTargets(target, rowPtr, colIndex, numRows, r, k) == row + [target(r, k - 1)];
      assert pre + (row + [target(r, k - 1)]) == (pre + row) + [target(r, k - 1)];
      assert values[rowPtr[0]..k] == values[rowPtr[0]..k - 1] + [values[k - 1]];
      ScatterSnoc(pre + row, values[rowPtr[0]..k - 1], target(r, k - 1), values[k - 1], size, zero);
    }
  }

  /** One more write on top of a scatter. */
  lemma ScatterSnoc<V>(targets: seq<int>, values: seq<V>, t: int, v: V, size: nat, zero: V)
    requires |targets| == |values|
    ensures Scatter(targets + [t], values + [v], size, zero) ==
      var out := Scatter(targets, values, size, zero);
      if 0 <= t < size then out[t := v] else out
  {
    assert (targets + [t])[..|targets|] == targets;
    assert (values + [v])[..|values|] == values;
  }

  /** The position of block-column `b` among a block-row's slots, or -1. */
  function SlotOf(seg: seq<int>, b: int): (s: int)
    ensures -1 <= s < |seg|
    ensures 0 <= s ==> seg[s] == b
    ensures s == -1 <==> b !in seg
  {
    if seg == [] then -1
    else if seg[0] == b then 0
    else
      var s := SlotOf(seg[1..], b);
      assert b in seg[1..] ==> b in seg;
      assert b in seg && b != seg[0] ==> b in seg[1..];
      if s == -1 then -1 else s + 1
  }

  /** The Blocked-ELL cell of the value at row `r`, column `c`: row `r` of the
      `numRows x ellCols` value array, in the slot of block-row `r / blockSize`
      that holds block-column `c / blockSize`, at offset `c % blockSize`
      inside the block. -1 when the block-row does not list that block.
      Products and quotients are written with `Times`, `Quot` and `Rem`,
      which `TimesIsProduct` and `QuotRemIsDivMod` equate with `*`, `/` and
      `%`: a found cell is `r * ellCols + s * blockSize + c % blockSize` for
      the slot `s`, and `EllCellInBuffer` places it inside row `r`. */
  function EllCell(columns: seq<int>, blockSize: int, ellCols: nat, r: int, c: int): int
  {
    if blockSize <= 0 || r < 0 || c < 0 then -1
    else
      var s := SlotOf(BlockRowSlots(columns, Quot(r, blockSize), Quot(ellCols, blockSize)), Quot(c, blockSize));
      if s < 0 then -1 else Times(r, ellCols) + Times(s, blockSize) + Rem(c, blockSize)
  }

  /** The corrected target of entry `k` of row `r`: its Blocked-ELL cell. */
  function EllTarget(columns: seq<int>, colIndex: seq<int>, blockSize: int, ellCols: nat): (int, int) -> int
  {
    (r, k) => if 0 <= k < |colIndex| then EllCell(columns, blockSize, ellCols, r, colIndex[k]) else -1
  }

  /** Inside a found cell's row, its offset `blockSize * s + c % blockSize`
      stays below `ellCols`. */
  lemma SlotBelow(columns: seq<int>, blockSize: nat, ellCols: nat, r: nat, c: nat)
    requires blockSize > 0
    requires SlotOf(BlockRowSlots(columns, Quot(r, blockSize), Quot(ellCols, blockSize)), Quot(c, blockSize)) >= 0
    ensures var s := SlotOf(BlockRowSlots(columns, Quot(r, blockSize), Quot(ellCols, blockSize)), Quot(c, blockSize));
      Times(s, blockSize) + Rem(c, blockSize) < ellCols
  {
    var nb := Quot(ellCols, blockSize);
    var s := SlotOf(BlockRowSlots(columns, Quot(r, blockSize), nb), Quot(c, blockSize));
    TimesMonotone(s + 1, nb, blockSize);
    QuotRemSplit(ellCols, blockSize);
    QuotRemSplit(c, blockSize);
  }

  /** A found cell lies in row `r` of the value array. */
  lemma EllCellInRow(columns: seq<int>, blockSize: int, ellCols: nat, r: int, c: int)
    requires EllCell(columns, blockSize, ellCols, r, c) >= 0
    ensures r >= 0 && Times(r, ellCols) <= EllCell(columns, blockSize, ellCols, r, c) < Times(r, ellCols) + ellCols
  {
    SlotBelow(columns, blockSize, ellCols, r, c);
  }

  /** Distinct (row, column) pairs get distinct cells. */
  lemma EllCellInjective(columns: seq<int>, blockSize: int, ellCols: nat, r: int, c: int, r': int, c': int)
    requires EllCell(columns, blockSize, ellCols, r, c) >= 0
    requires EllCell(columns, blockSize, ellCols, r, c) == EllCell(columns, blockSize, ellCols, r', c')
    ensures r == r' && c == c'
  {
    var nb := Quot(ellCols, blockSize);
    var s := SlotOf(BlockRowSlots(columns, Quot(r, blockSize), nb), Quot(c, blockSize));
    var s' := SlotOf(BlockRowSlots(columns, Quot(r', blockSize), nb), Quot(c', blockSize));
    SlotBelow(columns, blockSize, ellCols, r, c);
    SlotBelow(columns, blockSize, ellCols, r', c');
    QuotRemSplit(c, blockSize);
    QuotRemSplit(c', blockSize);
    TimesRadix(r, Times(s, blockSize) + Rem(c, blockSize), r', Times(s', blockSize) + Rem(c', blockSize), ellCols);
    TimesRadix(s, Rem(c, blockSize), s', Rem(c', blockSize), blockSize);
  }

  /** An entry of row `r` lies in block-row `r / blockSize`, so its
      block-column is one that block-row touches. */
  lemma EntryInBlockRow(rowPtr: seq<int>, colIndex: seq<int>, numRows: nat, blockSize: nat, r: int, k: int)
    requires WellFormedCsr(rowPtr, colIndex, numRows) && blockSize > 0
    requires 0 <= r < numRows && rowPtr[r] <= k < rowPtr[r + 1]
    ensures r / blockSize < CeilDiv(numRows, blockSize)
    ensures colIndex[k] / blockSize in BlockRowIds(rowPtr, colIndex, numRows, blockSize, r / blockSize)
  {
    var t := r / blockSize;
    DivBelow(r, CeilDiv(numRows, blockSize), blockSize);
    BlockRowOf(r, blockSize);
    var end := BlockRowEnd(numRows, blockSize, t);
    assert blockSize * t <= r < r + 1 <= end;
    var lo := rowPtr[blockSize * t];
    var hi := rowPtr[end];
    assert lo <= rowPtr[r] && rowPtr[r + 1] <= hi;
    assert colIndex[lo..hi][k - lo] == colIndex[k];
    assert colIndex[k] in colIndex[lo..hi];
    assert BlockRowIds(rowPtr, colIndex, numRows, blockSize, t) == BlockSet(colIndex[lo..hi], blockSize);
  }

  /** A block-row's slots contain every block-column they list. */
  lemma ListedIn(seg: seq<int>, ids: set<int>, b: int)
    requires ListsBlocks(seg, ids) && b in ids
    ensures b in seg
  {
    assert b in Elements(seg[..|ids|]);
    var j :| 0 <= j < |ids| && seg[..|ids|][j] == b;
    assert seg[j] == b;
  }

  /** Every block-column that block-row `t` touches is among its slots. */
  lemma ListedInSlots(columns: seq<int>, rowPtr: seq<int>, colIndex: seq<int>, numRows: nat, blockSize: nat,
                      nb: nat, t: int, b: int)
    requires WellFormedCsr(rowPtr, colIndex, numRows) && blockSize > 0
    requires ListsEveryBlockRow(columns, rowPtr, colIndex, numRows, blockSize, nb)
    requires 0 <= t < CeilDiv(numRows, blockSize) && b in BlockRowIds(rowPtr, colIndex, numRows, blockSize, t)
    ensures b in BlockRowSlots(columns, t, nb)
  {
    ListedIn(BlockRowSlots(columns, t, nb), BlockRowIds(rowPtr, colIndex, numRows, blockSize, t), b);
  }

  /** With the column-index array `createBlockIndex` builds, every stored
      entry's block-column is listed, so its cell is found. */
  lemma EllCellFound(rowPtr: seq<int>, colIndex: seq<int>, columns: seq<int>, numRows: nat, blockSize: nat,
                     ellCols: nat, r: int, k: int)
    requires WellFormedCsr(rowPtr, colIndex, numRows) && blockSize > 0
    requires ListsEveryBlockRow(columns, rowPtr, colIndex, numRows, blockSize, ellCols / blockSize)
    requires 0 <= r < numRows && rowPtr[r] <= k < rowPtr[r + 1]
    ensures EllCell(columns, blockSize, ellCols, r, colIndex[k]) >= 0
  {
    EntryListed(rowPtr, colIndex, columns, numRows, blockSize, ellCols / blockSize, r, k);
    EllCellListed(columns, blockSize, ellCols, r, colIndex[k]);
  }

  /** The block-column of a stored entry is among its block-row's slots. */
  lemma EntryListed(rowPtr: seq<int>, colIndex: seq<int>, columns: seq<int>, numRows: nat, blockSize: nat,
                    nb: nat, r: int, k: int)
    requires WellFormedCsr(rowPtr, colIndex, numRows) && blockSize > 0
    requires ListsEveryBlockRow(columns, rowPtr, colIndex, numRows, blockSize, nb)
    requires 0 <= r < numRows && rowPtr[r] <= k < rowPtr[r + 1]
    ensures colIndex[k] >= 0 && colIndex[k] / blockSize in BlockRowSlots(columns, r / blockSize, nb)
  {
    var t := r / blockSize;
    var b := colIndex[k] / blockSize;
    assert t < CeilDiv(numRows, blockSize) && b in BlockRowIds(rowPtr, colIndex, numRows, blockSize, t) by {
      EntryInBlockRow(rowPtr, colIndex, numRows, blockSize, r, k);
    }
    ListedInSlots(columns, rowPtr, colIndex, numRows, blockSize, nb, t, b);
  }

  /** A cell is found once block-row `r / blockSize` lists block-column
      `c / blockSize`. */
  lemma EllCellListed(columns: seq<int>, blockSize: int, ellCols: nat, r: int, c: int)
    requires blockSize > 0 && r >= 0 && c >= 0
    requires c / blockSize in BlockRowSlots(columns, r / blockSize, ellCols / blockSize)
    ensures EllCell(columns, blockSize, ellCols, r, c) >= 0
  {
    QuotRemIsDivMod(r, blockSize);
    QuotRemIsDivMod(ellCols, blockSize);
    QuotRemIsDivMod(c, blockSize);
  }

  /** The found cell of a stored entry lies in its row of the value array,
      inside the `numRows * ellCols` cells. */
  lemma EllCellInBuffer(rowPtr: seq<int>, colIndex: seq<int>, columns: seq<int>, numRows: nat, blockSize: nat,
                        ellCols: nat, r: int, k: int)
    requires WellFormedCsr(rowPtr, colIndex, numRows) && blockSize > 0
    requires ListsEveryBlockRow(columns, rowPtr, colIndex, numRows, blockSize, ellCols / blockSize)
    requires 0 <= r < numRows && rowPtr[r] <= k < rowPtr[r + 1]
    ensures var cell := EllCell(columns, blockSize, ellCols, r, colIndex[k]);
      0 <= r * ellCols <= cell < r * ellCols + ellCols <= numRows * ellCols
  {
    EllCellFound(rowPtr, colIndex, columns, numRows, blockSize, ellCols, r, k);
    EllCellInRow(columns, blockSize, ellCols, r, colIndex[k]);
    TimesMonotone(r + 1, numRows, ellCols);
    TimesIsProduct(r, ellCols);
    TimesIsProduct(numRows, ellCols);
  }

  /** Every index past the first row pointer and below `rowPtr[rows]` belongs
      to one of the rows `0..rows`. */
  lemma RowOf(rowPtr: seq<int>, colIndex: seq<int>, numRows: nat, rows: nat, k: int) returns (r: nat)
    requires WellFormedCsr(rowPtr, colIndex, numRows) && rows <= numRows
    requires rowPtr[0] <= k < rowPtr[rows]
    ensures r < rows && rowPtr[r] <= k < rowPtr[r + 1]
  {
    if k >= rowPtr[rows - 1] {
      r := rows - 1;
    } else {
      r := RowOf(rowPtr, colIndex, numRows, rows - 1, k);
    }
  }

  /** Entry `k` of row `r` sits at position `k - rowPtr[0]` of the targets. */
  lemma {:induction false} TargetAt(target: (int, int) -> int, rowPtr: seq<int>, colIndex: seq<int>, numRows: nat,
                                    rows: nat, r: nat, k: int)
    requires WellFormedCsr(rowPtr, colIndex, numRows) && rows <= numRows
    requires r < rows && rowPtr[r] <= k < rowPtr[r + 1]
    ensures TargetsUpTo(target, rowPtr, colIndex, numRows, rows)[k - rowPtr[0]] == target(r, k)
  {
    if r < rows - 1 {
      TargetAt(target, rowPtr, colIndex, numRows, rows - 1, r, k);
      assert rowPtr[r + 1] <= rowPtr[rows - 1];
    }
  }

  /** The corrected `createValueIndex`: the same visit of block-rows, their
      rows and their entries, with every value written at its Blocked-ELL
      cell and the column-index array left as it is. */
  method CreateValueIndex<V>(rowPtr: seq<int>, colIndex: seq<int>, values: seq<V>, columns: seq<int>,
                             numRows: nat, blockSize: nat, ellCols: nat, zero: V)
    returns (hAValues: seq<V>)
    requires WellFormedCsr(rowPtr, colIndex, numRows) && blockSize > 0 && |values| == |colIndex|
    ensures hAValues == ScatterRows(EllTarget(columns, colIndex, blockSize, ellCols), rowPtr, colIndex, values,
                                    numRows, numRows * ellCols, zero, numRows)
  {
    ghost var target := EllTarget(columns, colIndex, blockSize, ellCols);
    var size := numRows * ellCols;
    var buf := new V[size](_ => zero);
    var mb := CeilDiv(numRows, blockSize);
    ghost var done := 0;
    var i := 0;
    while i < mb
      invariant 0 <= i <= mb && done <= numRows
      invariant i < mb ==> done == blockSize * i
      invariant i == mb ==> done == numRows
      invariant buf[..] == ScatterRows(target, rowPtr, colIndex, values, numRows, size, zero, done)
    {
      var j := 0;
      while j < blockSize
        invariant 0 <= j <= blockSize && done == blockSize * i + j <= numRows
        invariant buf[..] == ScatterRows(target, rowPtr, colIndex, values, numRows, size, zero, done)
      {
        var id := blockSize * i + j;
        if id >= numRows {
          break;
        }
        ScatterRow(buf, rowPtr, colIndex, values, columns, numRows, blockSize, ellCols, zero, id);
        j := j + 1;
        done := done + 1;
      }
      BlockRowsDone(numRows, blockSize, i, j, mb);
      i := i + 1;
    }
    hAValues := buf[..];
  }

  /** The entry loop of one row `r` of `createValueIndex`, writing each value
      at its Blocked-ELL cell. */
  method ScatterRow<V>(buf: array<V>, rowPtr: seq<int>, colIndex: seq<int>, values: seq<V>, columns: seq<int>,
                       numRows: nat, blockSize: nat, ellCols: nat, zero: V, r: nat)
    modifies buf
    requires WellFormedCsr(rowPtr, colIndex, numRows) && blockSize > 0 && |values| == |colIndex| && r < numRows
    requires buf[..] == ScatterRows(EllTarget(columns, colIndex, blockSize, ellCols), rowPtr, colIndex, values,
                                    numRows, buf.Length, zero, r)
    ensures buf[..] == ScatterRows(EllTarget(columns, colIndex, blockSize, ellCols), rowPtr, colIndex, values,
                                   numRows, buf.Length, zero, r + 1)
  {
    ghost var target := EllTarget(columns, colIndex, blockSize, ellCols);
    var k := rowPtr[r];
    while k < rowPtr[r + 1]
      invariant rowPtr[r] <= k <= rowPtr[r + 1]
      invariant buf[..] == ScatterPart(target, rowPtr, colIndex, values, numRows, buf.Length, zero, r, k)
    {
      WriteEntry(buf, rowPtr, colIndex, values, columns, numRows, blockSize, ellCols, zero, r, k);
      k := k + 1;
    }
  }

  /** One iteration of the entry loop of `createValueIndex`: value `k` goes to
      its Blocked-ELL cell. */
  method WriteEntry<V>(buf: array<V>, rowPtr: seq<int>, colIndex: seq<int>, values: seq<V>, columns: seq<int>,
                       numRows: nat, blockSize: nat, ellCols: nat, zero: V, r: nat, k: int)
    modifies buf
    requires WellFormedCsr(rowPtr, colIndex, numRows) && |values| == |colIndex| && r < numRows
    requires rowPtr[r] <= k < rowPtr[r + 1]
    requires buf[..] == ScatterPart(EllTarget(columns, colIndex, blockSize, ellCols), rowPtr, colIndex, values,
                                    numRows, buf.Length, zero, r, k)
    ensures buf[..] == ScatterPart(EllTarget(columns, colIndex, blockSize, ellCols), rowPtr, colIndex, values,
                                   numRows, buf.Length, zero, r, k + 1)
  {
    var cell := EllCell(columns, blockSize, ellCols, r, colIndex[k]);
    assert EllTarget(columns, colIndex, blockSize, ellCols)(r, k) == cell;
    if 0 <= cell < buf.Length {
      ghost var before := buf[..];
      buf[cell] := values[k];
      assert buf[..] == before[cell := values[k]];
    }
  }

  /** `createValueIndex` as written: the same visit, with each value sent
      to `AsWrittenTarget`. A write whose target lies outside the buffer,
      out of bounds in the source, is skipped here. */
  method CreateValueIndexAsWritten<V>(rowPtr: seq<int>, colIndex: seq<int>, values: seq<V>, numRows: nat,
                                      blockSize: nat, ellCols: nat, zero: V)
    returns (hAValues: seq<V>)
    requires WellFormedCsr(rowPtr, colIndex, numRows) && blockSize > 0 && |values| == |colIndex|
    ensures hAValues == ScatterRows(AsWrittenTarget(rowPtr, colIndex, numRows, blockSize), rowPtr, colIndex, values,
                                    numRows, numRows * ellCols, zero, numRows)
  {
    ghost var target := AsWrittenTarget(rowPtr, colIndex, numRows, blockSize);
    var size := numRows * ellCols;
    var buf := new V[size](_ => zero);
    var mb := CeilDiv(numRows, blockSize);
    ghost var done := 0;
    var i := 0;
    while i < mb
      invariant 0 <= i <= mb && done <= numRows
      invariant i < mb ==> done == blockSize * i
      invariant i == mb ==> done == numRows
      invariant buf[..] == ScatterRows(target, rowPtr, colIndex, values, numRows, size, zero, done)
    {
      var j := 0;
      while j < blockSize
        invariant 0 <= j <= blockSize && done == blockSize * i + j <= numRows
        invariant buf[..] == ScatterRows(target, rowPtr, colIndex, values, numRows, size, zero, done)
      {
        var id := blockSize * i + j;
        if id >= numRows {
          break;
        }
        ScatterRowAsWritten(buf, rowPtr, colIndex, values, numRows, blockSize, zero, id);
        j := j + 1;
        done := done + 1;
      }
      BlockRowsDone(numRows, blockSize, i, j, mb);
      i := i + 1;
    }
    hAValues := buf[..];
  }

  /** The entry loop of one row `r` as written: the cell is the column's
      offset in its block plus `blockSize` times the counter `ctr`, and the
      counter moves on, with the boundary `flag`, after the write. */
  method ScatterRowAsWritten<V>(buf: array<V>, rowPtr: seq<int>, colIndex: seq<int>, values: seq<V>,
                                numRows: nat, blockSize: nat, zero: V, r: nat)
    modifies buf
    requires WellFormedCsr(rowPtr, colIndex, numRows) && blockSize > 0 && |values| == |colIndex| && r < numRows
    requires buf[..] == ScatterRows(AsWrittenTarget(rowPtr, colIndex, numRows, blockSize), rowPtr, colIndex, values,
                                    numRows, buf.Length, zero, r)
    ensures buf[..] == ScatterRows(AsWrittenTarget(rowPtr, colIndex, numRows, blockSize), rowPtr, colIndex, values,
                                   numRows, buf.Length, zero, r + 1)
  {
    ghost var target := AsWrittenTarget(rowPtr, colIndex, numRows, blockSize);
    var flag := 0;
    var ctr := 0;
    var lo := rowPtr[r];
    var k := lo;
    assert colIndex[lo..k] == [];
    while k < rowPtr[r + 1]
      invariant lo <= k <= rowPtr[r + 1]
      invariant flag == Scan(colIndex[lo..k], blockSize).boundary
      invariant ctr == |Scan(colIndex[lo..k], blockSize).counted|
      invariant buf[..] == ScatterPart(target, rowPtr, colIndex, values, numRows, buf.Length, zero, r, k)
    {
      flag, ctr := EntryAsWritten(buf, rowPtr, colIndex, values, numRows, blockSize, zero, r, k, flag, ctr);
      k := k + 1;
    }
  }

  /** One iteration of the entry loop as written (lines 143-147): the value
      goes to the column's offset in its block plus `blockSize` times the
      counter `ctr`, which at that point counts the blocks before `k`; then
      `flag` and `ctr` move past entry `k`. */
  method EntryAsWritten<V>(buf: array<V>, rowPtr: seq<int>, colIndex: seq<int>, values: seq<V>,
                           numRows: nat, blockSize: nat, zero: V, r: nat, k: int, flag: int, ctr: int)
    returns (flag': int, ctr': int)
    modifies buf
    requires WellFormedCsr(rowPtr, colIndex, numRows) && blockSize > 0 && |values| == |colIndex| && r < numRows
    requires rowPtr[r] <= k < rowPtr[r + 1]
    requires flag == Scan(colIndex[rowPtr[r]..k], blockSize).boundary
    requires ctr == |Scan(colIndex[rowPtr[r]..k], blockSize).counted|
    requires buf[..] == ScatterPart(AsWrittenTarget(rowPtr, colIndex, numRows, blockSize), rowPtr, colIndex, values,
                                    numRows, buf.Length, zero, r, k)
    ensures flag' == Scan(colIndex[rowPtr[r]..k + 1], blockSize).boundary
    ensures ctr' == |Scan(colIndex[rowPtr[r]..k + 1], blockSize).counted|
    ensures buf[..] == ScatterPart(AsWrittenTarget(rowPtr, colIndex, numRows, blockSize), rowPtr, colIndex, values,
                                   numRows, buf.Length, zero, r, k + 1)
  {
    var cell := (colIndex[k] - (colIndex[k] / blockSize) * blockSize) + blockSize * ctr;
    assert AsWrittenTarget(rowPtr, colIndex, numRows, blockSize)(r, k) == cell;
    if 0 <= cell < buf.Length {
      ghost var before := buf[..];
      buf[cell] := values[k];
      assert buf[..] == before[cell := values[k]];
    }
    CounterStep(colIndex, rowPtr[r], k, blockSize, flag, ctr);
    flag', ctr' := flag, ctr;
    if flag <= colIndex[k] {
      flag' := (colIndex[k] / blockSize) * blockSize + blockSize;
      ctr' := ctr + 1;
    }
  }

  /** After block-row `i`'s rows, `blockSize * i + j` rows are done: all of
      the next block-row's predecessors, or every row after the last one. */
  lemma BlockRowsDone(numRows: nat, blockSize: nat, i: nat, j: nat, mb: nat)
    requires blockSize > 0 && mb == CeilDiv(numRows, blockSize) && i < mb
    requires j <= blockSize && blockSize * i + j <= numRows
    requires j < blockSize ==> blockSize * i + j >= numRows
    ensures i + 1 < mb ==> blockSize * i + j == blockSize * (i + 1)
    ensures i + 1 == mb ==> blockSize * i + j == numRows
  {
    if i + 1 < mb {
      BlockRowStarts(numRows, blockSize, i + 1);
    }
  }

  /** Every stored value ends in its own Blocked-ELL cell, in its own row of
      the value array, unless a later entry of the same row has the same
      column and overwrites it. */
  lemma ValueLandsInCell<V>(rowPtr: seq<int>, colIndex: seq<int>, values: seq<V>, columns: seq<int>,
                            numRows: nat, blockSize: nat, ellCols: nat, zero: V, r: int, k: int)
    requires WellFormedCsr(rowPtr, colIndex, numRows) && blockSize > 0 && |values| == |colIndex|
    requires ListsEveryBlockRow(columns, rowPtr, colIndex, numRows, blockSize, ellCols / blockSize)
    requires 0 <= r < numRows && rowPtr[r] <= k < rowPtr[r + 1]
    requires forall k' :: k < k' < rowPtr[r + 1] ==> colIndex[k'] != colIndex[k]
    ensures var cell := EllCell(columns, blockSize, ellCols, r, colIndex[k]);
      0 <= r * ellCols <= cell < r * ellCols + ellCols <= numRows * ellCols &&
      ScatterRows(EllTarget(columns, colIndex, blockSize, ellCols), rowPtr, colIndex, values,
                  numRows, numRows * ellCols, zero, numRows)[cell] == values[k]
  {
    EllCellInBuffer(rowPtr, colIndex, columns, numRows, blockSize, ellCols, r, k);
    LaterCellsDiffer(rowPtr, colIndex, columns, numRows, blockSize, ellCols, r, k);
    LastWriteStays(EllTarget(columns, colIndex, blockSize, ellCols), rowPtr, colIndex, values,
                   numRows, numRows * ellCols, zero, r, k);
  }

  /** No entry visited after entry `k` of row `r` targets its cell, when no
      later entry of row `r` has its column: other rows have other cells. */
  lemma LaterCellsDiffer(rowPtr: seq<int>, colIndex: seq<int>, columns: seq<int>, numRows: nat, blockSize: nat,
                         ellCols: nat, r: int, k: int)
    requires WellFormedCsr(rowPtr, colIndex, numRows) && blockSize > 0
    requires 0 <= r < numRows && rowPtr[r] <= k < rowPtr[r + 1]
    requires forall k' :: k < k' < rowPtr[r + 1] ==> colIndex[k'] != colIndex[k]
    requires EllCell(columns, blockSize, ellCols, r, colIndex[k]) >= 0
    ensures EllTarget(columns, colIndex, blockSize, ellCols)(r, k) == EllCell(columns, blockSize, ellCols, r, colIndex[k])
    ensures forall r', k' :: 0 <= r' < numRows && rowPtr[r'] <= k' < rowPtr[r' + 1] && k < k' ==>
      EllTarget(columns, colIndex, blockSize, ellCols)(r', k') != EllTarget(columns, colIndex, blockSize, ellCols)(r, k)
  {
    var target := EllTarget(columns, colIndex, blockSize, ellCols);
    var cell := EllCell(columns, blockSize, ellCols, r, colIndex[k]);
    assert target(r, k) == cell;
    forall r', k' | 0 <= r' < numRows && rowPtr[r'] <= k' < rowPtr[r' + 1] && k < k' ensures target(r', k') != cell {
      assert target(r', k') == EllCell(columns, blockSize, ellCols, r', colIndex[k']);
      if target(r', k') == cell {
        EllCellInjective(columns, blockSize, ellCols, r, colIndex[k], r', colIndex[k']);
      }
    }
  }

  /** For any target: a value whose cell no later entry targets is the one
      the buffer keeps there. */
  lemma LastWriteStays<V>(target: (int, int) -> int, rowPtr: seq<int>, colIndex: seq<int>, values: seq<V>,
                          numRows: nat, size: nat, zero: V, r: nat, k: int)
    requires WellFormedCsr(rowPtr, colIndex, numRows) && |values| == |colIndex|
    requires r < numRows && rowPtr[r] <= k < rowPtr[r + 1] && 0 <= target(r, k) < size
    requires forall r', k' :: 0 <= r' < numRows && rowPtr[r'] <= k' < rowPtr[r' + 1] && k < k' ==>
      target(r', k') != target(r, k)
    ensures ScatterRows(target, rowPtr, colIndex, values, numRows, size, zero, numRows)[target(r, k)] == values[k]
  {
    ScatterRowsIsScatter(target, rowPtr, colIndex, values, numRows, size, zero, numRows);
    var ts := TargetsUpTo(target, rowPtr, colIndex, numRows, numRows);
    var vs := values[rowPtr[0]..rowPtr[numRows]];
    var idx := k - rowPtr[0];
    TargetAt(target, rowPtr, colIndex, numRows, numRows, r, k);
    forall j | idx < j < |ts| ensures ts[j] != ts[idx] {
      var r' := RowOf(rowPtr, colIndex, numRows, numRows, j + rowPtr[0]);
      TargetAt(target, rowPtr, colIndex, numRows, numRows, r', j + rowPtr[0]);
    }
    ScatterLast(ts, vs, size, zero, idx);
    assert vs[idx] == values[k];
  }

  /** For any target: a cell no entry targets keeps `zero`. */
  lemma NoWriteStaysZero<V>(target: (int, int) -> int, rowPtr: seq<int>, colIndex: seq<int>, values: seq<V>,
                            numRows: nat, size: nat, zero: V, p: int)
    requires WellFormedCsr(rowPtr, colIndex, numRows) && |values| == |colIndex| && 0 <= p < size
    requires forall r, k :: 0 <= r < numRows && rowPtr[r] <= k < rowPtr[r + 1] ==> target(r, k) != p
    ensures ScatterRows(target, rowPtr, colIndex, values, numRows, size, zero, numRows)[p] == zero
  {
    ScatterRowsIsScatter(target, rowPtr, colIndex, values, numRows, size, zero, numRows);
    var ts := TargetsUpTo(target, rowPtr, colIndex, numRows, numRows);
    forall j | 0 <= j < |ts| ensures ts[j] != p {
      var r := RowOf(rowPtr, colIndex, numRows, numRows, j + rowPtr[0]);
      TargetAt(target, rowPtr, colIndex, numRows, numRows, r, j + rowPtr[0]);
    }
    ScatterUntouched(ts, values[rowPtr[0]..rowPtr[numRows]], size, zero, p);
  }

  /** Every cell that is no stored entry's Blocked-ELL cell holds `zero`: the
      padding of the format. */
  lemma UntouchedCellsZero<V>(rowPtr: seq<int>, colIndex: seq<int>, values: seq<V>, columns: seq<int>,
                              numRows: nat, blockSize: nat, ellCols: nat, zero: V, p: int)
    requires WellFormedCsr(rowPtr, colIndex, numRows) && blockSize > 0 && |values| == |colIndex|
    requires 0 <= p < numRows * ellCols
    requires forall r, k :: 0 <= r < numRows && rowPtr[r] <= k < rowPtr[r + 1] ==>
      EllCell(columns, blockSize, ellCols, r, colIndex[k]) != p
    ensures ScatterRows(EllTarget(columns, colIndex, blockSize, ellCols), rowPtr, colIndex, values,
                        numRows, numRows * ellCols, zero, numRows)[p] == zero
  {
    var target := EllTarget(columns, colIndex, blockSize, ellCols);
    forall r, k | 0 <= r < numRows && rowPtr[r] <= k < rowPtr[r + 1] ensures target(r, k) != p {
      assert target(r, k) == EllCell(columns, blockSize, ellCols, r, colIndex[k]);
    }
    NoWriteStaysZero(target, rowPtr, colIndex, values, numRows, numRows * ellCols, zero, p);
  }

  /** The target the source computes for entry `k` of row `r`: the offset of
      the column inside its block plus `blockSize` times the number of
      blocks the row's scan has counted before `k`, with no row offset. */
  function AsWrittenTarget(rowPtr: seq<int>, colIndex: seq<int>, numRows: nat, blockSize: int): (int, int) -> int
  {
    (r, k) =>
      if blockSize > 0 && 0 <= r < numRows && |rowPtr| == numRows + 1 && 0 <= rowPtr[r] <= k < |colIndex| then
        AsWrittenCellAt(colIndex, rowPtr[r], k, blockSize)
      else -1
  }

  /** The cell itself, for entry `k` of a row starting at `lo`. */
  function AsWrittenCellAt(colIndex: seq<int>, lo: int, k: int, blockSize: int): int
    requires blockSize > 0 && 0 <= lo <= k < |colIndex|
  {
    colIndex[k] - (colIndex[k] / blockSize) * blockSize + blockSize * |Scan(colIndex[lo..k], blockSize).counted|
  }

  /** The source's cell for entry `k` of row `r` is block number `n` of the
      buffer, where `n` is the number of blocks the row's scan counted before
      `k`, at the column's offset inside its block. Nothing in it depends on
      the row beyond that count: there is no row offset. */
  lemma AsWrittenCell(rowPtr: seq<int>, colIndex: seq<int>, numRows: nat, blockSize: nat, r: int, k: int)
    requires WellFormedCsr(rowPtr, colIndex, numRows) && blockSize > 0
    requires 0 <= r < numRows && rowPtr[r] <= k < rowPtr[r + 1]
    ensures var n := |Scan(colIndex[rowPtr[r]..k], blockSize).counted|;
      var cell := AsWrittenTarget(rowPtr, colIndex, numRows, blockSize)(r, k);
      cell == colIndex[k] % blockSize + blockSize * n &&
      blockSize * n <= cell < blockSize * n + blockSize
  {
    var c := colIndex[k];
    assert c == (c / blockSize) * blockSize + c % blockSize;
  }

  /** Entries of different rows in block-column 0 are both written to cell 0
      by the source, so the first value is lost; their Blocked-ELL cells, with
      the column-index array `[0]` that `createBlockIndex` builds here, are 0
      and 2. */
  lemma AsWrittenRowsCollide()
    ensures WellFormedCsr([0, 1, 2], [0, 0], 2)
    ensures AsWrittenTarget([0, 1, 2], [0, 0], 2, 2)(0, 0) == 0
    ensures AsWrittenTarget([0, 1, 2], [0, 0], 2, 2)(1, 1) == 0
    ensures EllTarget([0], [0, 0], 2, 2)(0, 0) == 0
    ensures EllTarget([0], [0, 0], 2, 2)(1, 1) == 2
  {
    assert [0, 0][0..0] == [] && [0, 0][1..1] == [];
    assert BlockRowSlots([0], 0, 1) == [0];
  }

  /** A 1 x 2 matrix with both columns stored: the row touches one block, so
      `findMaxNnz` gives `ellCols == 2` and the value buffer has 2 cells, yet
      the source has already advanced its slot counter when it writes the
      second value and sends it to cell 3. */
  lemma AsWrittenSecondWritePastEnd()
    ensures WellFormedCsr([0, 2], [0, 1], 1)
    ensures RowBlockCount([0, 2], [0, 1], 1, 2, 0) == 1
    ensures AsWrittenTarget([0, 2], [0, 1], 1, 2)(0, 0) == 0
    ensures AsWrittenTarget([0, 2], [0, 1], 1, 2)(0, 1) == 3 >= 1 * 2
  {
    assert [0, 1][0..0] == [] && [0, 1][0..1] == [0] && [0, 1][0..2] == [0, 1];
    assert [0, 1][..1] == [0] && [0][..0] == [];
    assert Scan([0], 2).counted == [0];
    assert Scan([0, 1], 2).counted == [0];
  }

  /** The same two entries land in the Blocked-ELL cells 0 and 1, with the
      column-index array `[0]` that `createBlockIndex` builds for them. */
  lemma SecondWriteInPlace()
    ensures EllTarget([0], [0, 1], 2, 2)(0, 0) == 0
    ensures EllTarget([0], [0, 1], 2, 2)(0, 1) == 1
  {
    assert BlockRowSlots([0], 0, 1) == [0];
  }

  /** The source clears `numRows * ellCols` cells of the column-index array,
      which has only `CeilDiv(numRows, blockSize) * (ellCols / blockSize)`;
      with blocks wider than one column that runs past its end (and wipes
      the index `createBlockIndex` built). */
  lemma ColumnsClearOverrun(numRows: nat, blockSize: nat, ellCols: nat)
    requires blockSize >= 2 && numRows > 0 && ellCols > 0 && ellCols % blockSize == 0
    ensures numRows * ellCols > CeilDiv(numRows, blockSize) * (ellCols / blockSize)
  {
    ExactQuotient(ellCols, blockSize);
    CeilDivAtMost(numRows, blockSize);
    WiderThanSlots(numRows, CeilDiv(numRows, blockSize), ellCols / blockSize, blockSize);
  }

  lemma ExactQuotient(e: nat, blockSize: nat)
    requires blockSize > 0 && e > 0 && e % blockSize == 0
    ensures e == (e / blockSize) * blockSize && e / blockSize >= 1
  {
    var m := e / blockSize;
    assert e == m * blockSize + e % blockSize;
    if m <= 0 {
      MulMonotone(m, 0, blockSize);
    }
  }

  /** `n` rows of `m` blocks of width at least 2 outnumber `mb <= n` rows of
      `m` slots. */
  lemma WiderThanSlots(n: nat, mb: nat, m: nat, blockSize: nat)
    requires mb <= n && 0 < n && 1 <= m && 2 <= blockSize
    ensures n * (m * blockSize) > mb * m
  {
    MulMonotone(mb, n, m);
    var nm := n * m;
    MulMonotone(1, n, m);
    assert n * (m * blockSize) == nm * blockSize;
    MulMonotone(2, blockSize, nm);
  }
}
