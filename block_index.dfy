/** The Blocked-ELL column-index builder `createBlockIndex`: for every
    block-row, collect the distinct block-columns of its entries with a
    seen-flag array and the ordered list, then drain the list into the
    block-row's `nb` slots of an array pre-filled with the sentinel -1. */
module BlockIndex {
  import opened SortedList
  import opened Csr
  import opened Blocks
  import opened Capacity

  /** Lines 94-110 of `createBlockIndex` for block-row `i`: visit the entries
      of its rows (stopping at the last matrix row), and insert each
      block-column into the ordered list the first time the flag array shows
      it. The flag array has one cell per block-column of the matrix (the
      source sizes it by block-rows; see `RowSizedFlagOverrun`). */
  method CollectBlockRow(rowPtr: seq<int>, colIndex: seq<int>, numRows: nat, numCols: nat, blockSize: nat, i: nat)
    returns (blockList: seq<int>)
    requires WellFormedCsr(rowPtr, colIndex, numRows) && blockSize > 0
    requires forall k :: 0 <= k < |colIndex| ==> colIndex[k] < numCols
    requires i < CeilDiv(numRows, blockSize)
    ensures StrictlyAscending(blockList)
    ensures Elements(blockList) == BlockRowIds(rowPtr, colIndex, numRows, blockSize, i)
    ensures |blockList| == |BlockRowIds(rowPtr, colIndex, numRows, blockSize, i)|
  {
    BlockRowStarts(numRows, blockSize, i);
    var flag := new int[CeilDiv(numCols, blockSize)](_ => 0);
    blockList := [];
    var lo := rowPtr[blockSize * i];
    var j := 0;
    while j < blockSize
      invariant 0 <= j <= blockSize && blockSize * i + j <= numRows
      invariant StrictlyAscending(blockList)
      invariant Elements(blockList) == BlockSet(colIndex[lo..rowPtr[blockSize * i + j]], blockSize)
      invariant forall b :: 0 <= b < flag.Length ==> (flag[b] != 0 <==> b in blockList)
      invariant forall b :: b in blockList ==> 0 <= b < flag.Length
    {
      var id := blockSize * i + j;
      if id >= numRows {
        break;
      }
      blockList := CollectRow(flag, blockList, colIndex, lo, rowPtr[id], rowPtr[id + 1], blockSize);
      j := j + 1;
    }
    StrictCard(blockList);
  }

  /** The inner loop of lines 103-109 for one matrix row, whose entries are
      `colIndex[from..to]`: a block-column goes into the list when its flag is
      still clear, and its flag is then set. On entry the list holds the
      block-columns of `colIndex[lo..from]`, on exit those of `colIndex[lo..to]`. */
  method CollectRow(flag: array<int>, blockList: seq<int>, colIndex: seq<int>, lo: int, from: int, to: int, blockSize: nat)
    returns (list: seq<int>)
    modifies flag
    requires 0 <= lo <= from <= to <= |colIndex| && blockSize > 0
    requires forall k :: from <= k < to ==> 0 <= colIndex[k] < flag.Length * blockSize
    requires StrictlyAscending(blockList)
    requires Elements(blockList) == BlockSet(colIndex[lo..from], blockSize)
    requires forall b :: 0 <= b < flag.Length ==> (flag[b] != 0 <==> b in blockList)
    requires forall b :: b in blockList ==> 0 <= b < flag.Length
    ensures StrictlyAscending(list)
    ensures Elements(list) == BlockSet(colIndex[lo..to], blockSize)
    ensures forall b :: 0 <= b < flag.Length ==> (flag[b] != 0 <==> b in list)
    ensures forall b :: b in list ==> 0 <= b < flag.Length
  {
    list := blockList;
    var k := from;
    while k < to
      invariant from <= k <= to
      invariant StrictlyAscending(list)
      invariant Elements(list) == BlockSet(colIndex[lo..k], blockSize)
      invariant forall b :: 0 <= b < flag.Length ==> (flag[b] != 0 <==> b in list)
      invariant forall b :: b in list ==> 0 <= b < flag.Length
    {
      var index := colIndex[k] / blockSize;
      DivBelow(colIndex[k], flag.Length, blockSize);
      assert colIndex[lo..k + 1] == colIndex[lo..k] + [colIndex[k]];
      BlockSetAppend(colIndex[lo..k], colIndex[k], blockSize);
      if flag[index] == 0 {
        InsertPreservesStrict(list, index);
        InsertElements(list, index);
        InsertMembers(list, index);
        list := InsertNode(list, index);
        flag[index] := 1;
      }
      k := k + 1;
    }
  }

  /** The capacity the column-index array needs: the largest number of
      distinct block-columns of any block-row, times `blockSize`. This is the
      corrected counterpart of `findMaxNnz`, which bounds single rows only. */
  method FindMaxBlockRowNnz(rowPtr: seq<int>, colIndex: seq<int>, numRows: nat, numCols: nat, blockSize: nat)
    returns (ellCols: int)
    requires WellFormedCsr(rowPtr, colIndex, numRows) && blockSize > 0
    requires forall k :: 0 <= k < |colIndex| ==> colIndex[k] < numCols
    ensures ellCols >= 0 && ellCols % blockSize == 0
    ensures forall i :: 0 <= i < CeilDiv(numRows, blockSize) ==>
      |BlockRowIds(rowPtr, colIndex, numRows, blockSize, i)| <= ellCols / blockSize
    ensures ellCols > 0 ==>
      exists i :: 0 <= i < CeilDiv(numRows, blockSize) &&
                  |BlockRowIds(rowPtr, colIndex, numRows, blockSize, i)| == ellCols / blockSize
  {
    var mb := CeilDiv(numRows, blockSize);
    var max := 0;
    var i := 0;
    while i < mb
      invariant 0 <= i <= mb && 0 <= max
      invariant forall t :: 0 <= t < i ==> |BlockRowIds(rowPtr, colIndex, numRows, blockSize, t)| <= max
      invariant max > 0 ==> exists t :: 0 <= t < i && |BlockRowIds(rowPtr, colIndex, numRows, blockSize, t)| == max
    {
      var blockList := CollectBlockRow(rowPtr, colIndex, numRows, numCols, blockSize, i);
      if |blockList| > max {
        max := |blockList|;
      }
      i := i + 1;
    }
    ellCols := max * blockSize;
    MulDivCancel(max, blockSize);
  }

  /** `createBlockIndex`. Block-row `i` owns slots `[i * nb, i * nb + nb)`,
      `nb = ellCols / blockSize`; they list its block-columns in strictly
      ascending order followed by -1 padding. The precondition on `ellCols`
      is what keeps `ctr` inside the block-row's slots; `findMaxNnz` does not
      guarantee it (see `RowCapacityTooSmall`), `FindMaxBlockRowNnz` does. */
  method CreateBlockIndex(rowPtr: seq<int>, colIndex: seq<int>, numRows: nat, numCols: nat, blockSize: nat, ellCols: nat)
    returns (columns: seq<int>)
    requires WellFormedCsr(rowPtr, colIndex, numRows) && blockSize > 0
    requires forall k :: 0 <= k < |colIndex| ==> colIndex[k] < numCols
    requires forall i :: 0 <= i < CeilDiv(numRows, blockSize) ==>
      |BlockRowIds(rowPtr, colIndex, numRows, blockSize, i)| <= ellCols / blockSize
    ensures |columns| == CeilDiv(numRows, blockSize) * (ellCols / blockSize)
    ensures ListsEveryBlockRow(columns, rowPtr, colIndex, numRows, blockSize, ellCols / blockSize)
  {
    var mb := CeilDiv(numRows, blockSize);
    var nb := ellCols / blockSize;
    var hAColumns := new int[mb * nb](_ => -1);
    var ctr := 0;
    ghost var segs: seq<seq<int>> := [];
    var i := 0;
    while i < mb
      invariant 0 <= i <= mb && ctr == i * nb && |segs| == i
      invariant RowsListed(segs, rowPtr, colIndex, numRows, blockSize, nb)
      invariant Filled(hAColumns[..], ctr, segs)
    {
      SlotBounds(i, mb, nb);
      ghost var seg;
      ctr, seg := ListBlockRow(hAColumns, rowPtr, colIndex, numRows, numCols, blockSize, nb, i, ctr, segs);
      segs := segs + [seg];
      i := i + 1;
    }
    assert ctr == hAColumns.Length;
    columns := hAColumns[..];
    assert columns == columns[..ctr];
    SegmentsLaidOut(segs, columns, rowPtr, colIndex, numRows, blockSize, nb);
  }

  /** One block-row of `createBlockIndex`: its sorted block-column list is
      drained into its slots from `ctr = i * nb` on, the slots left over keep
      their -1, and `ctr` moves on to the next block-row's first slot. */
  method ListBlockRow(hAColumns: array<int>, rowPtr: seq<int>, colIndex: seq<int>, numRows: nat, numCols: nat,
                      blockSize: nat, nb: nat, i: nat, ctr: int, ghost segs: seq<seq<int>>)
    returns (next: int, ghost seg: seq<int>)
    modifies hAColumns
    requires WellFormedCsr(rowPtr, colIndex, numRows) && blockSize > 0
    requires forall k :: 0 <= k < |colIndex| ==> colIndex[k] < numCols
    requires i < CeilDiv(numRows, blockSize) && |BlockRowIds(rowPtr, colIndex, numRows, blockSize, i)| <= nb
    requires ctr == i * nb && ctr + nb <= hAColumns.Length && |segs| == i
    requires RowsListed(segs, rowPtr, colIndex, numRows, blockSize, nb) && Filled(hAColumns[..], ctr, segs)
    ensures next == i * nb + nb
    ensures RowsListed(segs + [seg], rowPtr, colIndex, numRows, blockSize, nb)
    ensures Filled(hAColumns[..], next, segs + [seg])
  {
    var blockList := CollectBlockRow(rowPtr, colIndex, numRows, numCols, blockSize, i);
    ghost var pre := hAColumns[..];
    next := Drain(hAColumns, ctr, blockList);
    ghost var post := hAColumns[..];
    DrainStep(pre, post, segs, ctr, next, nb, blockList, BlockRowIds(rowPtr, colIndex, numRows, blockSize, i));
    seg := post[ctr..ctr + nb];
    RowsListedAppend(segs, seg, rowPtr, colIndex, numRows, blockSize, nb);
    next := i * nb + nb;
  }

  /** The block-rows' segments laid end to end give each block-row its slots
      `[t * nb, t * nb + nb)`. */
  lemma SegmentsLaidOut(segs: seq<seq<int>>, columns: seq<int>, rowPtr: seq<int>, colIndex: seq<int>, numRows: nat,
                        blockSize: nat, nb: nat)
    requires WellFormedCsr(rowPtr, colIndex, numRows) && blockSize > 0
    requires RowsListed(segs, rowPtr, colIndex, numRows, blockSize, nb)
    requires |segs| == CeilDiv(numRows, blockSize) && columns == Concat(segs)
    ensures ListsEveryBlockRow(columns, rowPtr, colIndex, numRows, blockSize, nb)
  {
    if segs == [] {
      assert |columns| == 0;
    } else {
      ConcatSegment(segs, nb, 0);
    }
    forall t | 0 <= t < |segs|
      ensures ListsBlocks(BlockRowSlots(columns, t, nb), BlockRowIds(rowPtr, colIndex, numRows, blockSize, t))
    {
      ConcatSegment(segs, nb, t);
      TimesIsProduct(t, nb);
    }
  }

  /** Block-row `i` below `mb` has its `nb` slots inside the `mb * nb` cells,
      and the next block-row's slots start where they end. */
  lemma SlotBounds(i: nat, mb: nat, nb: nat)
    requires i < mb
    ensures i * nb + nb <= mb * nb && (i + 1) * nb == i * nb + nb
  {
    MulMonotone(i + 1, mb, nb);
  }

  /** Segment `t` has `nb` slots and lists the block-columns of block-row `t`. */
  ghost predicate RowsListed(segs: seq<seq<int>>, rowPtr: seq<int>, colIndex: seq<int>, numRows: nat, blockSize: nat, nb: nat)
    requires WellFormedCsr(rowPtr, colIndex, numRows) && blockSize > 0
  {
    |segs| <= CeilDiv(numRows, blockSize) &&
    forall t :: 0 <= t < |segs| ==>
      |segs[t]| == nb && ListsBlocks(segs[t], BlockRowIds(rowPtr, colIndex, numRows, blockSize, t))
  }

  lemma RowsListedAppend(segs: seq<seq<int>>, seg: seq<int>, rowPtr: seq<int>, colIndex: seq<int>, numRows: nat,
                         blockSize: nat, nb: nat)
    requires WellFormedCsr(rowPtr, colIndex, numRows) && blockSize > 0
    requires RowsListed(segs, rowPtr, colIndex, numRows, blockSize, nb)
    requires |segs| < CeilDiv(numRows, blockSize) && |seg| == nb
    requires ListsBlocks(seg, BlockRowIds(rowPtr, colIndex, numRows, blockSize, |segs|))
    ensures RowsListed(segs + [seg], rowPtr, colIndex, numRows, blockSize, nb)
  {
    assert forall t :: 0 <= t < |segs| ==> (segs + [seg])[t] == segs[t];
  }

  /** The column-index array while `createBlockIndex` runs: the finished
      block-rows' segments fill the first `ctr` cells, and every later cell
      still holds the -1 it was initialised with. */
  ghost predicate Filled(a: seq<int>, ctr: int, segs: seq<seq<int>>)
  {
    0 <= ctr <= |a| && a[..ctr] == Concat(segs) &&
    forall p :: ctr <= p < |a| ==> a[p] == -1
  }

  /** One block-row of `createBlockIndex`: before the drain, the earlier
      block-rows fill the prefix and every later cell is -1; after it, the
      block-row's slots hold its sorted list and then the -1 padding, and the
      cells past them are still -1. */
  lemma DrainStep(pre: seq<int>, post: seq<int>, segs: seq<seq<int>>, start: nat, drained: nat, nb: nat,
                  full: seq<int>, ids: set<int>)
    requires |pre| == |post| && start <= drained <= start + nb <= |pre|
    requires Filled(pre, start, segs)
    requires post[start..drained] == full
    requires forall p :: 0 <= p < start || drained <= p < |post| ==> post[p] == pre[p]
    requires StrictlyAscending(full) && Elements(full) == ids && |full| == |ids|
    ensures ListsBlocks(post[start..start + nb], ids)
    ensures Filled(post, start + nb, segs + [post[start..start + nb]])
  {
    var seg := post[start..start + nb];
    assert seg[..|ids|] == full;
    forall j | |ids| <= j < |seg| ensures seg[j] == -1 {
      assert seg[j] == post[start + j];
    }
    ConcatAppend(segs, seg);
    assert post[..start] == pre[..start];
    assert post[..start + nb] == post[..start] + seg;
  }

  /** The drain loop of lines 112-117: move the list's values, head first,
      into consecutive cells from `ctr` on. */
  method Drain(hAColumns: array<int>, ctr: int, blockList: seq<int>) returns (next: int)
    modifies hAColumns
    requires 0 <= ctr && ctr + |blockList| <= hAColumns.Length
    ensures next == ctr + |blockList|
    ensures hAColumns[ctr..next] == blockList
    ensures forall p :: 0 <= p < ctr || next <= p < hAColumns.Length ==> hAColumns[p] == old(hAColumns[p])
  {
    next := ctr;
    var rest := blockList;
    while rest != []
      invariant ctr <= next && next - ctr + |rest| == |blockList|
      invariant hAColumns[ctr..next] == blockList[..next - ctr] && rest == blockList[next - ctr..]
      invariant forall p :: 0 <= p < ctr || next <= p < hAColumns.Length ==> hAColumns[p] == old(hAColumns[p])
      decreases |rest|
    {
      hAColumns[next] := rest[0];
      next := next + 1;
      rest := rest[1..];
    }
  }

  /** The source sizes the seen-flag array by the number of block-rows but
      indexes it by block-column. This 2 x 4 matrix has one block-row and an
      entry in block-column 1, so the source's flag access is past the end. */
  lemma RowSizedFlagOverrun()
    ensures WellFormedCsr([0, 1, 1], [2], 2)
    ensures forall k :: 0 <= k < |[2]| ==> [2][k] < 4
    ensures CeilDiv(2, 2) == 1 && [2][0] / 2 == 1
  {
  }

  /** `findMaxNnz` bounds the block-columns of single rows, not of
      block-rows: here each row touches one block-column, so it returns 2 and
      `nb` is 1, while block-row 0 touches block-columns 0 and 1. */
  lemma RowCapacityTooSmall()
    ensures WellFormedCsr([0, 1, 2], [0, 2], 2)
    ensures forall r :: 0 <= r < 2 ==> RowBlockCount([0, 1, 2], [0, 2], 2, 2, r) == 1
    ensures |BlockRowIds([0, 1, 2], [0, 2], 2, 2, 0)| == 2
  {
    var rowPtr, colIndex := [0, 1, 2], [0, 2];
    assert RowCols(rowPtr, colIndex, 2, 0) == [0];
    assert RowCols(rowPtr, colIndex, 2, 1) == [2];
    assert [0][..0] == [] && [2][..0] == [];
    var ids := BlockRowIds(rowPtr, colIndex, 2, 2, 0);
    assert colIndex[0..2] == [0, 2];
    assert ids == BlockSet([0, 2], 2);
    assert 0 in [0, 2] && 2 in [0, 2];
    forall x | x in ids ensures x == 0 || x == 1 {
      var c :| c in [0, 2] && x == c / 2;
    }
    assert ids == {0, 1};
  }
}
